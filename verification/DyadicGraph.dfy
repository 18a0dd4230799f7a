/**
 The graph-level certificate for saturating dyadic float formats, and what a
 proven status means for whole runs: the exact and the FP64 execution store the
 same codes at every node.
 */
module DyadicGraph {
  import opened ExactArithmetic
  import opened FloatAccumulator
  import opened MacError
  import opened Quantum
  import opened Codebook
  import opened Operands
  import opened DyadicMac
  import opened GraphRun
  import opened StoredGraph
  import opened Results

  const ACCUMULATOR := "fp64_e11m52_accumulator"

  function ModelStore(f: FloatFormat, format: Format): Store
    requires |format.codes| > 0
  {
    (layer: Layer, channel: nat, xs: seq<real>) =>
      if Addressed(layer, channel, xs) then
        ModelCode(f, format.Book(), Products(xs, Decoded(format.codes, layer.weight.Row(channel))), layer.Bias(channel))
      else None
  }

  /** Every channel of the layer is settled for all finite inputs. */
  ghost predicate LayerCertified(f: FloatFormat, format: Format, layer: Layer)
    requires |format.codes| > 0
  {
    layer.weight.Populated()
    && forall channel: nat :: channel < layer.weight.channels ==>
         ChannelAgrees(f, format.codes, format.Book(), layer.weight.Row(channel), layer.Bias(channel))
  }

  lemma CertifiedLayerAgrees(f: FloatFormat, format: Format, layer: Layer, tensor: Tensor)
    requires |format.codes| > 0 && LayerCertified(f, format, layer) && FedFinite(format, layer, tensor)
    ensures SameStores(layer, ExactStore(format), ModelStore(f, format), Decode(format), tensor)
  {
    hide ModelCode, ExactCode, Decode, Products, Decoded;
    forall o | 0 <= o < |layer.outputs|
      ensures var xs := Gather(Decode(format), tensor, layer.outputs[o].taps);
        ExactStore(format)(layer, layer.outputs[o].channel, xs)
        == ModelStore(f, format)(layer, layer.outputs[o].channel, xs)
    {
      GatheredOperands(format, layer, tensor, o);
    }
  }

  ghost predicate GraphCertified(f: FloatFormat, format: Format, nodes: seq<Node>)
    requires |format.codes| > 0
  {
    forall n :: 0 <= n < |nodes| && nodes[n].Mac? ==> LayerCertified(f, format, nodes[n].layer)
  }

  /** A certified graph stores the same codes at every node under exact and rounded reduction, in any format. */
  lemma CertifiedGraphAgrees(f: FloatFormat, format: Format, nodes: seq<Node>, env: Environment)
    requires |format.codes| > 0 && GraphCertified(f, format, nodes) && FiniteRun(format, nodes, ExactStore(format), env)
    ensures Run(nodes, ExactStore(format), Decode(format), env)
         == Run(nodes, ModelStore(f, format), Decode(format), env)
  {
    hide LayerCertified, FedFinite, Decode, ExactStore, ModelStore;
    forall n | 0 <= n < |nodes| && nodes[n].Mac?
      ensures LayerSettled(format, nodes[n].layer, ExactStore(format), ModelStore(f, format))
    {
      CertifiedLayerSettled(f, format, nodes[n].layer);
    }
    SettledGraphAgrees(format, nodes, ExactStore(format), ModelStore(f, format), env);
  }

  lemma CertifiedLayerSettled(f: FloatFormat, format: Format, layer: Layer)
    requires |format.codes| > 0 && LayerCertified(f, format, layer)
    ensures LayerSettled(format, layer, ExactStore(format), ModelStore(f, format))
  {
    hide LayerCertified, FedFinite, Decode, ExactStore, ModelStore, SameStores;
    forall tensor | FedFinite(format, layer, tensor)
      ensures SameStores(layer, ExactStore(format), ModelStore(f, format), Decode(format), tensor)
    {
      CertifiedLayerAgrees(f, format, layer, tensor);
    }
  }

  /** One MAC's row of the report. */
  datatype Row = Row(node: string, channels: nat, strict: nat, sensitive: nat, pending: seq<nat>)

  datatype Report = Report(rows: seq<Row>) {
    predicate Proven() { forall r: Row :: r in rows ==> r.pending == [] }
  }

  /** The checks made on one MAC before its channels. */
  ghost predicate Admitted(format: Format, source: Encoding, node: Node)
    requires node.Mac?
  {
    var layer := node.layer;
    && layer.accumulator == ACCUMULATOR
    && source == Encoding(format.name, true)
    && node.output == Encoding(format.name, true)
    && layer.weight.encoding == Encoding(format.name, true)
    && format.Dyadic()
    && (forall i :: 0 <= i < |layer.weight.codes| ==> HasCode(format.codes, layer.weight.codes[i]))
    && layer.weight.Populated()
    && (layer.biases.Some? ==> |layer.biases.value| == layer.weight.channels)
  }

  /** The step of the product lattice: one quantum per operand. */
  function ProductQuantum(format: Format): (q: Fraction)
    ensures q.Value() == QuantumOf(Fractions(format.codes)).Value() * QuantumOf(Fractions(format.codes)).Value()
  {
    hide QuantumOf, Fraction.Value, Product;
    var quantum := QuantumOf(Fractions(format.codes));
    ProductValue(quantum, quantum);
    Product(quantum, quantum)
  }

  /** The verdict of a channel is the one its bound, its margin and its sites call for. */
  ghost predicate Decided(f: FloatFormat, format: Format, layer: Layer, q: Fraction, channel: nat,
                          verdict: Result<Verdict>)
    requires |format.codes| > 0 && layer.weight.Populated() && channel < layer.weight.channels
  {
    DecidesChannel(f, format.codes, format.Book(), q, Thresholds(format.Book()), layer.weight.Row(channel),
                   layer.Bias(channel).GetOr(0.0), verdict)
  }

  /** The rounding bound of a channel exists. */
  ghost predicate Bounded(f: FloatFormat, format: Format, layer: Layer, channel: nat)
    requires |format.codes| > 0 && layer.weight.Populated() && channel < layer.weight.channels
  {
    var codes := layer.weight.Row(channel);
    ErrorBound(f, MaximumDot(format.codes, format.codes, codes), |codes|,
               Some(Abs(layer.Bias(channel).GetOr(0.0)))).Success?
  }

  lemma DecidedBounded(f: FloatFormat, format: Format, layer: Layer, q: Fraction, channel: nat,
                       verdict: Result<Verdict>)
    requires |format.codes| > 0 && layer.weight.Populated() && channel < layer.weight.channels
    requires DecidesChannel(f, format.codes, format.Book(), q, Thresholds(format.Book()), layer.weight.Row(channel),
                            layer.Bias(channel).GetOr(0.0), verdict)
    ensures Decided(f, format, layer, q, channel, verdict)
    ensures verdict.Success? <==> Bounded(f, format, layer, channel)
  {
    hide ErrorBound, MaximumDot, Narrow, DecidesSites;
  }

  ghost function Count(verdicts: seq<Verdict>, verdict: Verdict): nat {
    if |verdicts| == 0 then 0
    else Count(verdicts[..|verdicts| - 1], verdict) + if verdicts[|verdicts| - 1] == verdict then 1 else 0
  }

  lemma CountNext(verdicts: seq<Verdict>, next: Verdict, verdict: Verdict)
    ensures Count(verdicts + [next], verdict) == Count(verdicts, verdict) + if next == verdict then 1 else 0
  {
    assert (verdicts + [next])[..|verdicts|] == verdicts;
  }

  /** The row reports the verdict of every channel of the node. */
  ghost predicate Reports(f: FloatFormat, format: Format, node: Node, q: Fraction, row: Row, verdicts: seq<Verdict>)
    requires |format.codes| > 0 && node.Mac? && node.layer.weight.Populated()
  {
    && row.node == node.name && row.channels == node.layer.weight.channels == |verdicts|
    && row.strict == Count(verdicts, StrictThresholdMargin) && row.sensitive == Count(verdicts, AllSensitiveSitesEqual)
    && (forall c: nat :: c < |verdicts| ==> Decided(f, format, node.layer, q, c, Success(verdicts[c])))
    && (forall c: nat :: c in row.pending <==> c < |verdicts| && verdicts[c].Pending?)
  }

  /** The channel loop of one MAC node: it fails exactly when some channel has no rounding bound. */
  method CertifyLayer(f: FloatFormat, format: Format, node: Node, q: Fraction)
    returns (row: Result<Row>, ghost verdicts: seq<Verdict>)
    requires f.Valid() && node.Mac? && Admitted(format, Encoding(format.name, true), node)
    requires q == ProductQuantum(format) && q.numerator > 0
    ensures row.Success? && row.value.pending == [] ==> LayerCertified(f, format, node.layer)
    ensures row.Success? ==> Reports(f, format, node, q, row.value, verdicts)
    ensures row.Success? ==> row.value.strict + row.value.sensitive + |row.value.pending| == row.value.channels
    ensures row.Success? <==> forall c: nat :: c < node.layer.weight.channels ==> Bounded(f, format, node.layer, c)
  {
    hide Thresholds, QuantumOf, MaximumMagnitude, ChannelAgrees, DecidesChannel, ProductQuantum, Fraction.Value, BookOf,
         IsPowerOfTwo, Reduce, Decided, Bounded, Counted, Count;
    var layer, book := node.layer, format.Book();
    var ts := Thresholds(book);
    ZeroIsThreshold(format);
    NothingCounted();
    var maximumX := MaximumMagnitude(format.codes);
    var strict, sensitive := 0, 0;
    var pending: seq<nat> := [];
    verdicts := [];
    for channel := 0 to layer.weight.channels
      invariant strict >= 0 && sensitive >= 0 && |verdicts| == channel && Counted(verdicts, strict, sensitive, pending)
      invariant forall c: nat :: c < channel ==>
        Decided(f, format, layer, q, c, Success(verdicts[c])) && Bounded(f, format, layer, c)
      invariant pending == [] ==> forall c: nat :: c < channel ==>
        ChannelAgrees(f, format.codes, book, layer.weight.Row(c), layer.Bias(c))
    {
      var codes := layer.weight.Row(channel);
      var certified := CertifyChannel(f, format.codes, book, q, ts, maximumX, codes, layer.Bias(channel));
      DecidedBounded(f, format, layer, q, channel, certified);
      if certified.IsFailure() {
        return certified.PropagateFailure(), verdicts;
      }
      var verdict := certified.value;
      CountedNext(verdicts, strict, sensitive, pending, verdict);
      verdicts := verdicts + [verdict];
      match verdict {
        case StrictThresholdMargin => strict := strict + 1;
        case AllSensitiveSitesEqual => sensitive := sensitive + 1;
        case Pending(_) => pending := pending + [channel];
      }
    }
    row := Success(Row(node.name, layer.weight.channels, strict, sensitive, pending));
    CountedReport(f, format, node, q, row.value, verdicts);
  }

  /** The two counters and the pending list follow the verdicts. */
  ghost predicate Counted(verdicts: seq<Verdict>, strict: nat, sensitive: nat, pending: seq<nat>) {
    && strict == Count(verdicts, StrictThresholdMargin) && sensitive == Count(verdicts, AllSensitiveSitesEqual)
    && strict + sensitive + |pending| == |verdicts|
    && forall c: nat :: c in pending <==> c < |verdicts| && verdicts[c].Pending?
  }

  lemma NothingCounted()
    ensures Counted([], 0, 0, [])
  {
  }

  lemma CountedNext(verdicts: seq<Verdict>, strict: nat, sensitive: nat, pending: seq<nat>, verdict: Verdict)
    requires Counted(verdicts, strict, sensitive, pending)
    ensures Counted(verdicts + [verdict], strict + if verdict.StrictThresholdMargin? then 1 else 0,
                    sensitive + if verdict.AllSensitiveSitesEqual? then 1 else 0,
                    if verdict.Pending? then pending + [|verdicts|] else pending)
  {
    hide Count;
    CountNext(verdicts, verdict, StrictThresholdMargin);
    CountNext(verdicts, verdict, AllSensitiveSitesEqual);
  }

  lemma CountedReport(f: FloatFormat, format: Format, node: Node, q: Fraction, row: Row, verdicts: seq<Verdict>)
    requires |format.codes| > 0 && node.Mac? && node.layer.weight.Populated()
    requires row.node == node.name && row.channels == node.layer.weight.channels == |verdicts|
    requires Counted(verdicts, row.strict, row.sensitive, row.pending)
    requires forall c: nat :: c < |verdicts| ==> Decided(f, format, node.layer, q, c, Success(verdicts[c]))
    ensures Reports(f, format, node, q, row, verdicts)
    ensures row.strict + row.sensitive + |row.pending| == row.channels
  {
    hide Decided, Count;
  }

  lemma ZeroIsThreshold(format: Format)
    requires |format.codes| > 0 && format.signedZero
    ensures |Thresholds(format.Book())| > 0
  {
    var ordered := SortedSet(Values(format.Book().entries));
    assert (Midpoints(ordered) + [0.0])[|Midpoints(ordered)|] == 0.0;
    assert 0.0 in Thresholds(format.Book());
  }

  /** The encodings known before a node: a MAC declares its own, every other node declares or inherits. */
  function DomainsAt(inputs: map<string, Encoding>, nodes: seq<Node>, n: nat): map<string, Encoding>
    requires n <= |nodes|
  {
    if n == 0 then inputs
    else
      var domains := DomainsAt(inputs, nodes, n - 1);
      match nodes[n - 1]
      case Mac(name, _, output, _) => domains[name := output]
      case Other(name, source, _, declared, _) =>
        if source in domains then domains[name := declared.GetOr(domains[source])] else domains
  }

  /** A MAC is accepted: it is admitted, with a positive quantum and a bound for every channel. */
  ghost predicate AcceptedMac(format: Format, source: Encoding, node: Node)
    requires node.Mac?
  {
    && Admitted(format, source, node)
    && ProductQuantum(format).numerator > 0
    && forall c: nat :: c < node.layer.weight.channels ==> Bounded(BINARY64, format, node.layer, c)
  }

  /** A node is accepted: its source is known, and a MAC is accepted. */
  ghost predicate Accepted(format: Format, inputs: map<string, Encoding>, nodes: seq<Node>, n: nat)
    requires n < |nodes|
  {
    var node, domains := nodes[n], DomainsAt(inputs, nodes, n);
    && node.source in domains
    && (node.Mac? ==> AcceptedMac(format, domains[node.source], node))
  }

  /** The MAC nodes in order. */
  ghost function Macs(nodes: seq<Node>): (macs: seq<Node>)
    ensures forall node :: node in macs ==> node.Mac?
  {
    if |nodes| == 0 then [] else
      var front, node := Macs(nodes[..|nodes| - 1]), nodes[|nodes| - 1];
      if node.Mac? then front + [node] else front
  }

  /** A reported row is a true account of its node. */
  ghost predicate Accounts(format: Format, node: Node, row: Row)
    requires |format.codes| > 0 && node.Mac?
  {
    && node.layer.weight.Populated()
    && exists verdicts: seq<Verdict> :: Reports(BINARY64, format, node, ProductQuantum(format), row, verdicts)
  }

  /** One row for every MAC, in the order of the nodes. */
  ghost predicate Covers(format: Format, nodes: seq<Node>, rows: seq<Row>)
    requires |nodes| > 0 ==> |format.codes| > 0
  {
    && |rows| == |nodes|
    && forall i :: 0 <= i < |rows| ==> nodes[i].Mac? && Accounts(format, nodes[i], rows[i])
  }

  lemma NoMacs(format: Format, nodes: seq<Node>)
    ensures Macs(nodes[..0]) == [] && Covers(format, [], [])
  {}

  lemma CoversStep(format: Format, macs: seq<Node>, rows: seq<Row>, node: Node, row: Row)
    requires |format.codes| > 0 && Covers(format, macs, rows) && node.Mac? && Accounts(format, node, row)
    ensures Covers(format, macs + [node], rows + [row])
  {
    hide Accounts;
  }

  /** If no row has a pending channel, every MAC before node n is settled. */
  ghost predicate CertifiedSoFar(format: Format, nodes: seq<Node>, rows: seq<Row>, n: nat)
    requires n <= |nodes|
  {
    (forall r: Row :: r in rows ==> r.pending == []) ==>
      forall m :: 0 <= m < n && nodes[m].Mac? ==> |format.codes| > 0 && LayerCertified(BINARY64, format, nodes[m].layer)
  }

  lemma CertifiedStep(format: Format, nodes: seq<Node>, rows: seq<Row>, n: nat, row: Row)
    requires n < |nodes| && nodes[n].Mac? && CertifiedSoFar(format, nodes, rows, n) && |format.codes| > 0
    requires row.pending == [] ==> LayerCertified(BINARY64, format, nodes[n].layer)
    ensures CertifiedSoFar(format, nodes, rows + [row], n + 1)
  {
    hide LayerCertified;
    var all := rows + [row];
    assert row in all && forall r: Row :: r in rows ==> r in all;
  }

  lemma MacsStep(nodes: seq<Node>, n: nat)
    requires n < |nodes|
    ensures Macs(nodes[..n + 1]) == if nodes[n].Mac? then Macs(nodes[..n]) + [nodes[n]] else Macs(nodes[..n])
  {
    assert nodes[..n + 1][..n] == nodes[..n];
  }

  /** The checks on one MAC, one after the other. */
  method CheckMac(format: Format, source: Encoding, node: Node) returns (refusal: Option<string>)
    requires node.Mac?
    ensures refusal.None? <==> Admitted(format, source, node)
  {
    hide HasCode, Format.Dyadic;
    var layer, own := node.layer, Encoding(format.name, true);
    var weight := layer.weight;
    if layer.accumulator != ACCUMULATOR {
      return Some("MAC does not use the declared FP64 accumulator");
    }
    if source != own || node.output != own || weight.encoding != own || !format.Dyadic() {
      return Some("proof requires an unscaled scalar dyadic FP encoding");
    }
    if exists i :: 0 <= i < |weight.codes| && !HasCode(format.codes, weight.codes[i]) {
      return Some("encoded weight contains a nonfinite or invalid code");
    }
    if |weight.codes| != weight.k * weight.channels {
      return Some("encoded weight population mismatch");
    }
    if layer.biases.Some? && |layer.biases.value| != weight.channels {
      return Some("bias population mismatch");
    }
    return None;
  }

  /** One MAC of the graph: the admission checks, the quantum and the channel loop. */
  method ProveMac(format: Format, source: Encoding, node: Node) returns (row: Result<Row>)
    requires node.Mac?
    ensures row.Success? <==> AcceptedMac(format, source, node)
    ensures row.Success? ==> |format.codes| > 0 && Accounts(format, node, row.value)
    ensures row.Success? && row.value.pending == [] ==> LayerCertified(BINARY64, format, node.layer)
  {
    hide LayerCertified, FloatFormat.Valid, Admitted, ProductQuantum, Reports, Bounded;
    Binary64Valid();
    var refusal := CheckMac(format, source, node);
    if refusal.Some? {
      return Failure(refusal.value);
    }
    var q := ProductQuantum(format);
    if q.numerator <= 0 {
      return Failure("the finite codebook has no positive quantum");
    }
    AdmittedMeaning(format, source, node);
    ghost var verdicts;
    row, verdicts := CertifyLayer(BINARY64, format, node, q);
  }

  /**
   prove_graph: a report exists exactly when there is a MAC and every node is
   accepted; a proven status covers every input of finite codes, node by node.
   */
  method ProveGraph(format: Format, inputs: map<string, Encoding>, nodes: seq<Node>) returns (report: Result<Report>)
    ensures report.Success? <==>
      Macs(nodes) != [] && forall n: nat :: n < |nodes| ==> Accepted(format, inputs, nodes, n)
    ensures report.Success? ==> |format.codes| > 0 && Covers(format, Macs(nodes), report.value.rows)
    ensures report.Success? && (forall r: Row :: r in report.value.rows ==> r.pending == []) ==>
      && GraphCertified(BINARY64, format, nodes)
      && forall env :: FiniteRun(format, nodes, ExactStore(format), env) ==>
           Run(nodes, ExactStore(format), Decode(format), env)
           == Run(nodes, ModelStore(BINARY64, format), Decode(format), env)
  {
    hide LayerCertified, AcceptedMac, Accounts, Macs, FiniteRun, Covers;
    var domains, rows := inputs, [];
    NoMacs(format, nodes);
    for n := 0 to |nodes|
      invariant domains == DomainsAt(inputs, nodes, n)
      invariant forall m: nat :: m < n ==> Accepted(format, inputs, nodes, m)
      invariant |rows| == |Macs(nodes[..n])| && (|rows| > 0 ==> |format.codes| > 0)
      invariant Covers(format, Macs(nodes[..n]), rows) && CertifiedSoFar(format, nodes, rows, n)
    {
      var node := nodes[n];
      MacsStep(nodes, n);
      if node.source !in domains {
        assert !Accepted(format, inputs, nodes, n);
        return Failure("unknown source");
      }
      var source := domains[node.source];
      match node {
        case Other(name, _, _, declared, _) =>
          domains := domains[name := declared.GetOr(source)];
        case Mac(name, _, output, _) =>
          domains := domains[name := output];
          var proved := ProveMac(format, source, node);
          assert Accepted(format, inputs, nodes, n) <==> proved.Success?;
          var row :- proved;
          CoversStep(format, Macs(nodes[..n]), rows, node, row);
          CertifiedStep(format, nodes, rows, n, row);
          rows := rows + [row];
      }
      assert Accepted(format, inputs, nodes, n);
    }
    assert nodes[..|nodes|] == nodes;
    if |rows| == 0 {
      return Failure("graph contains no supported MACs");
    }
    report := Success(Report(rows));
    if report.value.Proven() {
      CertifiedRunsAgree(BINARY64, format, nodes);
    }
  }

  lemma CertifiedRunsAgree(f: FloatFormat, format: Format, nodes: seq<Node>)
    requires |format.codes| > 0 && GraphCertified(f, format, nodes)
    ensures forall env :: FiniteRun(format, nodes, ExactStore(format), env) ==>
      Run(nodes, ExactStore(format), Decode(format), env) == Run(nodes, ModelStore(f, format), Decode(format), env)
  {
    hide GraphCertified, FiniteRun;
    forall env | FiniteRun(format, nodes, ExactStore(format), env)
      ensures Run(nodes, ExactStore(format), Decode(format), env)
           == Run(nodes, ModelStore(f, format), Decode(format), env)
    {
      CertifiedGraphAgrees(f, format, nodes, env);
    }
  }

  lemma AdmittedMeaning(format: Format, source: Encoding, node: Node)
    requires node.Mac? && Admitted(format, source, node)
    ensures Admitted(format, Encoding(format.name, true), node)
    ensures |format.codes| > 0 && node.layer.weight.Populated()
  {}
}
