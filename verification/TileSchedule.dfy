/**
 Traffic and cycle totals of a tiled convolution, added up over classes of
 equal tiles, against the loop over every single tile.
 */
module TileSchedule {
  import opened IntArithmetic
  import opened MemoryLayout
  import opened Results

  // ----- classes of tiles -----

  datatype Class = Class(size: nat, count: nat)

  /** _parts: full tiles as one class, the remainder as another. */
  function Parts(length: Positive, tile: Positive): (parts: seq<Class>)
    ensures |parts| > 0
  {
    DivIdentity(length, tile);
    DivNonnegative(length, tile);
    var q, r := length / tile, length % tile;
    (if q > 0 then [Class(tile, q)] else []) + (if r > 0 then [Class(r, 1)] else [])
  }

  /** Every tile on its own: full ones, then the remainder. */
  function Tiles(length: nat, tile: Positive): seq<nat> {
    if length == 0 then [] else if length <= tile then [length] else [tile] + Tiles(length - tile, tile)
  }

  type Cost = nat -> int

  function ClassSum(parts: seq<Class>, f: Cost): int {
    if |parts| == 0 then 0
    else ClassSum(parts[..|parts| - 1], f) + parts[|parts| - 1].count * f(parts[|parts| - 1].size)
  }

  function TileSum(tiles: seq<nat>, f: Cost): int {
    if |tiles| == 0 then 0 else f(tiles[0]) + TileSum(tiles[1..], f)
  }

  function Repeated(count: nat, size: nat): (r: seq<nat>)
    ensures |r| == count && forall i :: 0 <= i < count ==> r[i] == size
  {
    seq(count, i requires 0 <= i < count => size)
  }

  function Remainder(r: nat): seq<nat> { if r > 0 then [r] else [] }

  /** The single tiles are the full ones followed by the remainder. */
  lemma {:induction false} TilesShape(length: nat, q: nat, r: nat, tile: Positive)
    requires length == q * tile + r && r < tile
    ensures Tiles(length, tile) == Repeated(q, tile) + Remainder(r)
    decreases q
  {
    if q > 0 {
      assert (q - 1) * tile + r == length - tile;
      MulNonnegative(q - 1, tile);
      TilesShape(length - tile, q - 1, r, tile);
      assert Repeated(q, tile) == [tile] + Repeated(q - 1, tile);
      if length == tile {
        assert length - tile == 0 && Tiles(0, tile) == [];
      }
    }
  }

  lemma {:induction false} RepeatedSum(count: nat, size: nat, rest: seq<nat>, f: Cost)
    ensures TileSum(Repeated(count, size) + rest, f) == count * f(size) + TileSum(rest, f)
  {
    if count == 0 {
      assert Repeated(0, size) + rest == rest;
    } else {
      var all := Repeated(count, size) + rest;
      assert all[1..] == Repeated(count - 1, size) + rest;
      RepeatedSum(count - 1, size, rest, f);
      assert (count - 1) * f(size) + f(size) == count * f(size);
    }
  }

  /** A sum over classes with multiplicities is the sum over every tile. */
  lemma ClassesAreTiles(length: Positive, tile: Positive, f: Cost)
    ensures ClassSum(Parts(length, tile), f) == TileSum(Tiles(length, tile), f)
  {
    DivIdentity(length, tile);
    DivNonnegative(length, tile);
    var q, r := length / tile, length % tile;
    TilesShape(length, q, r, tile);
    RepeatedSum(q, tile, Remainder(r), f);
    PartsSum(q, r, tile, f);
  }

  lemma PartsSum(q: nat, r: nat, tile: Positive, f: Cost)
    requires q > 0 || r > 0
    ensures ClassSum((if q > 0 then [Class(tile, q)] else []) + (if r > 0 then [Class(r, 1)] else []), f)
         == q * f(tile) + TileSum(Remainder(r), f)
  {
    var full, part := if q > 0 then [Class(tile, q)] else [], if r > 0 then [Class(r, 1)] else [];
    assert ClassSum(full, f) == q * f(tile) by {
      if q > 0 {
        assert full[..0] == [];
      }
    }
    if r > 0 {
      assert (full + part)[..|full + part| - 1] == full;
      assert [r][1..] == [];
    } else {
      assert full + part == full;
    }
  }

  /** The classes have the sizes of the tiles, the same last one, and add up to as many tiles. */
  lemma PartsShape(length: Positive, tile: Positive)
    ensures |Tiles(length, tile)| > 0
    ensures Parts(length, tile)[|Parts(length, tile)| - 1].size == Tiles(length, tile)[|Tiles(length, tile)| - 1]
    ensures forall c :: c in Parts(length, tile) ==> c.size in Tiles(length, tile) && c.count > 0
    ensures forall t :: t in Tiles(length, tile) ==> exists c :: c in Parts(length, tile) && c.size == t
    ensures forall i, j :: 0 <= i < j < |Parts(length, tile)| ==>
      Parts(length, tile)[i].size != Parts(length, tile)[j].size
  {
    DivIdentity(length, tile);
    DivNonnegative(length, tile);
    var q, r := length / tile, length % tile;
    TilesShape(length, q, r, tile);
    var parts := Parts(length, tile);
    assert q > 0 ==> parts[0] == Class(tile, q) && Repeated(q, tile)[0] == tile;
    assert r > 0 ==> parts[|parts| - 1] == Class(r, 1);
  }

  /** The tiles cover the length exactly. */
  lemma {:induction false} TilesCover(length: nat, tile: Positive, f: Cost, scale: int)
    requires forall t: nat :: f(t) == t * scale
    ensures TileSum(Tiles(length, tile), f) == length * scale
  {
    if length > tile {
      TilesCover(length - tile, tile, f, scale);
      assert (length - tile) * scale + tile * scale == length * scale;
      assert ([tile] + Tiles(length - tile, tile))[1..] == Tiles(length - tile, tile);
    } else if length > 0 {
      assert [length][1..] == [];
    }
  }

  // ----- storage of the tiles -----

  datatype Scaling = Unscaled | Mapped | Shared(scaleBits: nat, block: Positive)

  datatype Format = Format(bits: Positive, scaling: Scaling)

  datatype Organization = Organization(wordBits: Positive, banks: Positive, readPorts: Positive, writePorts: Positive,
                                       depth: Option<nat>)

  datatype Schedule = Schedule(channels: Positive, positions: Positive, reduction: Positive, org: Organization,
                               macPerCycle: Positive, accumulatorBits: Positive, biasBits: Positive,
                               doubleBuffer: bool, cacheScales: bool, spill: bool)

  datatype Layer = Layer(outputChannels: Positive, positions: Positive, reduction: Positive, depthwise: bool,
                         bias: bool)

  const MAPPED_SCALE_BITS := 64

  /** Words of one tile: values, scales, and biases. */
  datatype Words = Words(payload: nat, metadata: nat, bias: nat)

  /** tensor_layout of a tile of `lines` rows of `values` values, packed along the last axis. */
  function LayoutOf(lines: nat, values: nat, biases: nat, s: Schedule, fmt: Format): Words {
    var word := s.org.wordBits;
    MulNonnegative(values, fmt.bits);
    MulNonnegative(biases, s.biasBits);
    Words(ArrayWords(lines, values * fmt.bits, word), ScaleWords(lines, values, fmt, word),
          ArrayWords(1, biases * s.biasBits, word))
  }

  function ScaleWords(lines: nat, values: nat, fmt: Format, word: Positive): nat {
    match fmt.scaling
    case Unscaled => 0
    case Mapped => ArrayWords(1, MAPPED_SCALE_BITS, word)
    case Shared(scaleBits, block) =>
      MulNonnegative(lines, CeilDiv(values, block));
      MulNonnegative(lines * CeilDiv(values, block), scaleBits);
      ArrayWords(1, lines * CeilDiv(values, block) * scaleBits, word)
  }

  // ----- bank loads and port cycles -----

  /** _bank_words: several arrays, each striped from bank zero. */
  function Striped(fields: seq<nat>, banks: Positive): (loads: seq<nat>)
    ensures |loads| == banks
  {
    if |fields| == 0 then seq(banks, b requires 0 <= b < banks => 0)
    else SumLoads(Striped(fields[..|fields| - 1], banks), BankLoads(fields[|fields| - 1], banks))
  }

  function SumLoads(a: seq<nat>, b: seq<nat>): (r: seq<nat>)
    requires |a| == |b|
    ensures |r| == |a| && forall i :: 0 <= i < |r| ==> r[i] == a[i] + b[i]
  {
    seq(|a|, i requires 0 <= i < |a| => a[i] + b[i])
  }

  /** The loop that adds every array's words to the bank loads. */
  method BankWords(fields: seq<nat>, banks: Positive) returns (loads: array<nat>)
    ensures fresh(loads) && loads[..] == Striped(fields, banks)
  {
    loads := new nat[banks](_ => 0);
    assert loads[..] == Striped(fields[..0], banks);
    for n := 0 to |fields|
      invariant loads[..] == Striped(fields[..n], banks)
    {
      assert fields[..n + 1][..n] == fields[..n];
      var q, r := fields[n] / banks, fields[n] % banks;
      DivNonnegative(fields[n], banks);
      ghost var before := loads[..];
      for bank := 0 to banks
        invariant forall b :: 0 <= b < bank ==> loads[b] == before[b] + BankLoads(fields[n], banks)[b]
        invariant forall b :: bank <= b < banks ==> loads[b] == before[b]
      {
        loads[bank] := loads[bank] + q + if bank < r then 1 else 0;
      }
      assert loads[..] == SumLoads(before, BankLoads(fields[n], banks));
    }
    assert fields[..|fields|] == fields;
  }

  /** max(ceil(x / ports) for x in loads) */
  function Cycles(loads: seq<nat>, ports: Positive): (cycles: nat)
    ensures forall i :: 0 <= i < |loads| ==> CeilDiv(loads[i], ports) <= cycles
    ensures if |loads| == 0 then cycles == 0 else exists i :: 0 <= i < |loads| && cycles == CeilDiv(loads[i], ports)
  {
    if |loads| == 0 then 0
    else
      var rest := Cycles(loads[..|loads| - 1], ports);
      var last := CeilDiv(loads[|loads| - 1], ports);
      if last > rest then last else rest
  }

  // ----- what one tile costs -----

  datatype Counter =
    | ExternalBits | WeightBits | InputBits | OutputBits | BiasBits | ScaleBits | SpillBits
    | ReadCycles | WriteCycles | ComputeCycles | TileInstances

  /** A layer in a format under a schedule. */
  datatype Plan = Plan(layer: Layer, s: Schedule, fmt: Format) {
    function Weights(m: nat, k: nat): Words { LayoutOf(m, k, 0, s, fmt) }

    function Inputs(m: nat, p: nat, k: nat): Words {
      MulNonnegative(m, p);
      LayoutOf(if layer.depthwise then m * p else p, k, 0, s, fmt)
    }

    function Outputs(m: nat, p: nat): Words { LayoutOf(m, p, if layer.bias then m else 0, s, fmt) }

    /** Bank loads of one weight tile and one input tile. */
    function Operands(m: nat, p: nat, k: nat): (loads: seq<nat>)
      ensures |loads| == s.org.banks
    {
      var w, a := Weights(m, k), Inputs(m, p, k);
      SumLoads(Striped([w.payload, w.metadata], s.org.banks), Striped([a.payload, a.metadata], s.org.banks))
    }

    function Reads(m: nat, p: nat, k: nat, last: bool): nat {
      var out := Outputs(m, p);
      Cycles(if last then SumLoads(Operands(m, p, k), Striped([out.metadata, out.bias], s.org.banks))
             else Operands(m, p, k),
             s.org.readPorts)
    }

    function Writes(m: nat, p: nat, k: nat, last: bool): nat {
      var out := Outputs(m, p);
      Cycles(if last then SumLoads(Operands(m, p, k), Striped([out.payload, out.metadata], s.org.banks))
             else Operands(m, p, k),
             s.org.writePorts)
    }

    function Compute(m: nat, p: nat, k: nat): nat {
      MulNonnegative(m, p);
      MulNonnegative(m * p, k);
      CeilDiv(m * p * k, s.macPerCycle)
    }

    /**
     One reduction segment of one output tile; the last segment also reads the bias
     and output scale and writes the output.
     */
    function Segment(c: Counter, m: nat, p: nat, k: nat, last: bool): int {
      var w, a, word := Weights(m, k), Inputs(m, p, k), s.org.wordBits;
      match c
      case ExternalBits => (w.payload + w.metadata + (a.payload + a.metadata)) * word
      case WeightBits => w.payload * word
      case InputBits => a.payload * word
      case ScaleBits => (w.metadata + a.metadata) * word
      case ReadCycles => Reads(m, p, k, last)
      case WriteCycles => Writes(m, p, k, last)
      case ComputeCycles => Compute(m, p, k)
      case TileInstances => 1
      case OutputBits => 0
      case BiasBits => 0
      case SpillBits => 0
    }

    /** What one output tile costs once, whatever its segments. */
    function Output(c: Counter, m: nat, p: nat): int {
      var out, word := Outputs(m, p), s.org.wordBits;
      match c
      case ExternalBits => (out.payload + out.metadata + out.bias) * word
      case OutputBits => out.payload * word
      case BiasBits => out.bias * word
      case ScaleBits => out.metadata * word
      case WeightBits => 0
      case InputBits => 0
      case SpillBits => 0
      case ReadCycles => 0
      case WriteCycles => 0
      case ComputeCycles => 0
      case TileInstances => 0
    }

    function AccumulatorWords(m: nat, p: nat): nat {
      MulNonnegative(m, p);
      MulNonnegative(m * p, s.accumulatorBits);
      CeilDiv(m * p * s.accumulatorBits, s.org.wordBits)
    }

    /** One accumulator round trip between two segments. */
    function Spill(c: Counter, m: nat, p: nat): int {
      var words := AccumulatorWords(m, p);
      match c
      case ExternalBits => 2 * words * s.org.wordBits
      case SpillBits => 2 * words * s.org.wordBits
      case ReadCycles => Cycles(BankLoads(words, s.org.banks), s.org.readPorts)
      case WriteCycles => Cycles(BankLoads(words, s.org.banks), s.org.writePorts)
      case WeightBits => 0
      case InputBits => 0
      case OutputBits => 0
      case BiasBits => 0
      case ScaleBits => 0
      case ComputeCycles => 0
      case TileInstances => 0
    }

    function Spills(c: Counter, m: nat, p: nat, segments: nat): int {
      if s.spill && segments > 0 then (segments - 1) * Spill(c, m, p) else 0
    }

    // ----- the loop over single tiles -----

    function Segments(c: Counter, m: nat, p: nat, tiles: seq<nat>): int {
      if |tiles| == 0 then 0
      else Segment(c, m, p, tiles[0], |tiles| == 1) + Segments(c, m, p, tiles[1..])
    }

    function Cell(c: Counter, m: nat, p: nat): int {
      var tiles := Tiles(layer.reduction, s.reduction);
      Output(c, m, p) + Segments(c, m, p, tiles) + Spills(c, m, p, |tiles|)
    }

    function CellCost(c: Counter, m: nat): Cost { (p: nat) => Cell(c, m, p) }

    function RowCost(c: Counter): Cost { (m: nat) => TileSum(Tiles(layer.positions, s.positions), CellCost(c, m)) }

    /** A counter after every output tile and every reduction segment has been charged one by one. */
    function Naive(c: Counter): int { TileSum(Tiles(layer.outputChannels, s.channels), RowCost(c)) }

    function SegmentCost(c: Counter, m: nat, p: nat): Cost { (k: nat) => Segment(c, m, p, k, false) }
  }

  /** Charging every segment alike and correcting the last one is charging them in order. */
  lemma {:induction false} LastSegment(plan: Plan, c: Counter, m: nat, p: nat, tiles: seq<nat>)
    requires |tiles| > 0
    ensures plan.Segments(c, m, p, tiles)
         == TileSum(tiles, plan.SegmentCost(c, m, p))
            + plan.Segment(c, m, p, tiles[|tiles| - 1], true) - plan.Segment(c, m, p, tiles[|tiles| - 1], false)
  {
    hide Plan.Segment;
    if |tiles| > 1 {
      LastSegment(plan, c, m, p, tiles[1..]);
    } else {
      assert tiles[1..] == [];
    }
  }

  // ----- the loop over classes of tiles -----

  /** The totals dictionary. */
  datatype Totals = Totals(externalBits: int, weightBits: int, inputBits: int, outputBits: int, biasBits: int,
                           scaleBits: int,
                           spillBits: int, readCycles: int, writeCycles: int, computeCycles: int, tileInstances: int) {
    function At(c: Counter): int {
      match c
      case ExternalBits => externalBits
      case WeightBits => weightBits
      case InputBits => inputBits
      case OutputBits => outputBits
      case BiasBits => biasBits
      case ScaleBits => scaleBits
      case SpillBits => spillBits
      case ReadCycles => readCycles
      case WriteCycles => writeCycles
      case ComputeCycles => computeCycles
      case TileInstances => tileInstances
    }

    /** External traffic is the sum of its six parts. */
    predicate Balanced() {
      externalBits == weightBits + inputBits + outputBits + biasBits + scaleBits + spillBits
    }
  }

  const ZERO := Totals(0, 0, 0, 0, 0, 0, 0, 0, 0, 0, 0)

  /** Every counter gains the cost of one class of segments; the last class is corrected once per output tile. */
  ghost predicate Charged(plan: Plan, m: nat, p: nat, k: nat, instances: nat, outer: nat, last: bool, before: Totals,
                          after: Totals)
  {
    forall c: Counter :: after.At(c) == before.At(c) + IntTimes(instances, plan.Segment(c, m, p, k, false))
      + if last then IntTimes(outer, plan.Segment(c, m, p, k, true) - plan.Segment(c, m, p, k, false)) else 0
  }

  method ChargeClass(plan: Plan, m: nat, p: nat, k: nat, instances: nat, outer: nat, last: bool, before: Totals)
    returns (totals: Totals)
    ensures Charged(plan, m, p, k, instances, outer, last, before, totals)
    ensures before.Balanced() ==> totals.Balanced()
  {
    hide LayoutOf, Striped, Cycles, SumLoads, BankLoads, CeilDiv, Plan.Weights, Plan.Inputs, Plan.Outputs,
         Plan.Operands, Plan.Reads, Plan.Writes, Plan.Compute, Plan.Segment, Charged;
    var word := plan.s.org.wordBits;
    var w, a := plan.Weights(m, k), plan.Inputs(m, p, k);
    var baseRead, baseWrite := plan.Reads(m, p, k, false), plan.Writes(m, p, k, false);
    totals := before;
    totals := totals.(tileInstances := totals.tileInstances + instances);
    totals := totals.(weightBits := totals.weightBits + instances * w.payload * word);
    totals := totals.(inputBits := totals.inputBits + instances * a.payload * word);
    totals := totals.(scaleBits := totals.scaleBits + instances * (w.metadata + a.metadata) * word);
    totals := totals.(readCycles := totals.readCycles + instances * baseRead);
    totals := totals.(writeCycles := totals.writeCycles + instances * baseWrite);
    if last {
      totals := totals.(readCycles := totals.readCycles + outer * (plan.Reads(m, p, k, true) - baseRead));
      totals := totals.(writeCycles := totals.writeCycles + outer * (plan.Writes(m, p, k, true) - baseWrite));
    }
    totals := totals.(computeCycles := totals.computeCycles + instances * plan.Compute(m, p, k));
    var wBits, aBits := (w.payload + w.metadata) * word, (a.payload + a.metadata) * word;
    totals := totals.(externalBits := totals.externalBits + instances * (wBits + aBits));
    SegmentTraffic(instances, w, a, word);
    SegmentCharged(plan, m, p, k, instances, outer, last, before, totals);
  }

  lemma SegmentCharged(plan: Plan, m: nat, p: nat, k: nat, instances: nat, outer: nat, last: bool, before: Totals,
                       after: Totals)
    requires var w, a, word := plan.Weights(m, k), plan.Inputs(m, p, k), plan.s.org.wordBits;
      && after.externalBits
           == before.externalBits + IntTimes(instances, (w.payload + w.metadata + (a.payload + a.metadata)) * word)
      && after.weightBits == before.weightBits + IntTimes(instances, w.payload * word)
      && after.inputBits == before.inputBits + IntTimes(instances, a.payload * word)
      && after.scaleBits == before.scaleBits + IntTimes(instances, (w.metadata + a.metadata) * word)
    requires after.outputBits == before.outputBits && after.biasBits == before.biasBits
    requires after.spillBits == before.spillBits
    requires after.computeCycles == before.computeCycles + IntTimes(instances, plan.Compute(m, p, k))
    requires after.tileInstances == before.tileInstances + instances
    requires after.readCycles == before.readCycles + IntTimes(instances, plan.Reads(m, p, k, false))
      + if last then IntTimes(outer, plan.Reads(m, p, k, true) - plan.Reads(m, p, k, false)) else 0
    requires after.writeCycles == before.writeCycles + IntTimes(instances, plan.Writes(m, p, k, false))
      + if last then IntTimes(outer, plan.Writes(m, p, k, true) - plan.Writes(m, p, k, false)) else 0
    ensures Charged(plan, m, p, k, instances, outer, last, before, after)
  {
    TimesUnit(instances, outer);
    hide IntTimes, LayoutOf, Plan.Weights, Plan.Inputs, Plan.Reads, Plan.Writes, Plan.Compute;
    forall c: Counter
      ensures after.At(c) == before.At(c) + IntTimes(instances, plan.Segment(c, m, p, k, false))
        + if last then IntTimes(outer, plan.Segment(c, m, p, k, true) - plan.Segment(c, m, p, k, false)) else 0
    {
      match c
      case ExternalBits =>
      case WeightBits =>
      case InputBits =>
      case OutputBits =>
      case BiasBits =>
      case ScaleBits =>
      case SpillBits =>
      case ReadCycles =>
      case WriteCycles =>
      case ComputeCycles =>
      case TileInstances =>
    }
  }

  lemma TimesUnit(a: int, b: int)
    ensures IntTimes(a, 1) == a && IntTimes(a, 0) == 0 && IntTimes(b, 0) == 0
  {
  }

  /** The traffic of one class of segments, part by part. */
  lemma SegmentTraffic(instances: nat, w: Words, a: Words, word: Positive)
    ensures instances * w.payload * word == instances * (w.payload * word)
    ensures instances * a.payload * word == instances * (a.payload * word)
    ensures instances * (w.metadata + a.metadata) * word == instances * ((w.metadata + a.metadata) * word)
    ensures instances * ((w.payload + w.metadata) * word + (a.payload + a.metadata) * word)
         == instances * ((w.payload + w.metadata + (a.payload + a.metadata)) * word)
         == instances * (w.payload * word) + instances * (a.payload * word)
           + instances * ((w.metadata + a.metadata) * word)
  {
    var x, y, z := w.payload * word, a.payload * word, (w.metadata + a.metadata) * word;
    assert (w.payload + w.metadata + (a.payload + a.metadata)) * word == x + y + z;
    assert (w.payload + w.metadata) * word + (a.payload + a.metadata) * word == x + y + z;
    assert instances * (x + y + z) == instances * x + instances * y + instances * z;
  }

  /** Every counter gains `outer` times a cost. */
  ghost predicate Gained(before: Totals, after: Totals, outer: nat, cost: Counter -> int) {
    forall c: Counter :: after.At(c) == before.At(c) + IntTimes(outer, cost(c))
  }

  method ChargeOutput(plan: Plan, m: nat, p: nat, outer: nat, before: Totals) returns (totals: Totals)
    ensures Gained(before, totals, outer, c => plan.Output(c, m, p))
    ensures before.Balanced() ==> totals.Balanced()
  {
    hide LayoutOf, Plan.Outputs;
    var out, word := plan.Outputs(m, p), plan.s.org.wordBits;
    var external := (out.payload + out.metadata + out.bias) * word;
    totals := before;
    totals := totals.(outputBits := totals.outputBits + outer * out.payload * word);
    totals := totals.(biasBits := totals.biasBits + outer * out.bias * word);
    totals := totals.(scaleBits := totals.scaleBits + outer * out.metadata * word);
    totals := totals.(externalBits := totals.externalBits + outer * external);
    OutputTraffic(outer, out, word);
    OutputCharged(plan, m, p, outer, before, totals);
  }

  lemma OutputTraffic(outer: nat, out: Words, word: Positive)
    ensures outer * out.payload * word == IntTimes(outer, out.payload * word)
    ensures outer * out.bias * word == IntTimes(outer, out.bias * word)
    ensures outer * out.metadata * word == IntTimes(outer, out.metadata * word)
    ensures outer * ((out.payload + out.metadata + out.bias) * word)
         == IntTimes(outer, (out.payload + out.metadata + out.bias) * word)
         == IntTimes(outer, out.payload * word) + IntTimes(outer, out.bias * word)
           + IntTimes(outer, out.metadata * word)
  {
    var x, y, z := out.payload * word, out.bias * word, out.metadata * word;
    assert (out.payload + out.metadata + out.bias) * word == x + y + z;
    assert outer * (x + y + z) == outer * x + outer * y + outer * z;
  }

  lemma OutputCharged(plan: Plan, m: nat, p: nat, outer: nat, before: Totals, after: Totals)
    requires var out, word := plan.Outputs(m, p), plan.s.org.wordBits;
      && after.outputBits == before.outputBits + IntTimes(outer, out.payload * word)
      && after.biasBits == before.biasBits + IntTimes(outer, out.bias * word)
      && after.scaleBits == before.scaleBits + IntTimes(outer, out.metadata * word)
      && after.externalBits == before.externalBits + IntTimes(outer, (out.payload + out.metadata + out.bias) * word)
    requires after == before.(outputBits := after.outputBits, biasBits := after.biasBits, scaleBits := after.scaleBits,
                              externalBits := after.externalBits)
    ensures Gained(before, after, outer, c => plan.Output(c, m, p))
  {
    TimesUnit(outer, 0);
    hide IntTimes, LayoutOf, Plan.Outputs;
    forall c: Counter
      ensures after.At(c) == before.At(c) + IntTimes(outer, plan.Output(c, m, p))
    {
      match c
      case ExternalBits =>
      case WeightBits =>
      case InputBits =>
      case OutputBits =>
      case BiasBits =>
      case ScaleBits =>
      case SpillBits =>
      case ReadCycles =>
      case WriteCycles =>
      case ComputeCycles =>
      case TileInstances =>
    }
  }

  method ChargeSpills(plan: Plan, m: nat, p: nat, outer: nat, segments: nat, before: Totals) returns (totals: Totals)
    requires segments > 0
    ensures Gained(before, totals, outer, c => plan.Spills(c, m, p, segments))
    ensures before.Balanced() ==> totals.Balanced()
  {
    hide BankLoads, Cycles, Plan.AccumulatorWords;
    totals := before;
    var spills := segments - 1;
    if plan.s.spill && spills != 0 {
      var words, word := plan.AccumulatorWords(m, p), plan.s.org.wordBits;
      var spillBits := outer * 2 * spills * words * word;
      totals := totals.(spillBits := totals.spillBits + spillBits);
      totals := totals.(externalBits := totals.externalBits + spillBits);
      var loads := BankLoads(words, plan.s.org.banks);
      totals := totals.(readCycles := totals.readCycles + outer * spills * Cycles(loads, plan.s.org.readPorts));
      totals := totals.(writeCycles := totals.writeCycles + outer * spills * Cycles(loads, plan.s.org.writePorts));
      SpillTraffic(outer, spills, words, word);
      Regroup3(outer, spills, Cycles(loads, plan.s.org.readPorts));
      Regroup3(outer, spills, Cycles(loads, plan.s.org.writePorts));
    }
    SpillsCharged(plan, m, p, outer, segments, before, totals);
  }

  lemma SpillTraffic(outer: nat, spills: nat, words: nat, word: Positive)
    ensures outer * 2 * spills * words * word == IntTimes(outer, spills * (2 * words * word))
  {
    var x := words * word;
    assert 2 * words * word == 2 * x;
    assert outer * 2 * spills * words * word
        == (outer * 2 * spills) * x by { Regroup3(outer * 2 * spills, words, word); }
    assert spills * (2 * x) == (2 * spills) * x;
    Regroup3(outer, 2 * spills, x);
    Regroup3(outer, 2, spills);
  }

  lemma SpillsCharged(plan: Plan, m: nat, p: nat, outer: nat, segments: nat, before: Totals, after: Totals)
    requires segments > 0
    requires plan.s.spill && segments > 1 ==>
      var words, word, org := plan.AccumulatorWords(m, p), plan.s.org.wordBits, plan.s.org;
      && after.spillBits == before.spillBits + IntTimes(outer, (segments - 1) * (2 * words * word))
      && after.externalBits == before.externalBits + IntTimes(outer, (segments - 1) * (2 * words * word))
      && after.readCycles == before.readCycles
        + IntTimes(outer, (segments - 1) * Cycles(BankLoads(words, org.banks), org.readPorts))
      && after.writeCycles == before.writeCycles
        + IntTimes(outer, (segments - 1) * Cycles(BankLoads(words, org.banks), org.writePorts))
    requires after == before.(spillBits := after.spillBits, externalBits := after.externalBits,
                              readCycles := after.readCycles, writeCycles := after.writeCycles)
    requires !(plan.s.spill && segments > 1) ==> after == before
    ensures Gained(before, after, outer, c => plan.Spills(c, m, p, segments))
  {
    TimesUnit(outer, 0);
    hide IntTimes, BankLoads, Cycles, Plan.AccumulatorWords;
    forall c: Counter
      ensures after.At(c) == before.At(c) + IntTimes(outer, plan.Spills(c, m, p, segments))
    {
      match c
      case ExternalBits =>
      case WeightBits =>
      case InputBits =>
      case OutputBits =>
      case BiasBits =>
      case ScaleBits =>
      case SpillBits =>
      case ReadCycles =>
      case WriteCycles =>
      case ComputeCycles =>
      case TileInstances =>
    }
  }

  /** The correction of the last segment of an output tile. */
  ghost function LastCorrection(plan: Plan, c: Counter, m: nat, p: nat, k: nat): int {
    plan.Segment(c, m, p, k, true) - plan.Segment(c, m, p, k, false)
  }

  /** Segment classes charged up to n. */
  ghost predicate ChargedTo(plan: Plan, m: nat, p: nat, outer: nat, parts: seq<Class>, n: nat, before: Totals,
                            after: Totals)
    requires n <= |parts|
  {
    forall c: Counter :: after.At(c) == before.At(c) + IntTimes(outer, ClassSum(parts[..n], plan.SegmentCost(c, m, p)))
      + if n == |parts| && n > 0 then IntTimes(outer, LastCorrection(plan, c, m, p, parts[n - 1].size)) else 0
  }

  lemma ChargedStep(plan: Plan, m: nat, p: nat, outer: nat, parts: seq<Class>, n: nat, before: Totals, middle: Totals,
                    after: Totals)
    requires n < |parts| && ChargedTo(plan, m, p, outer, parts, n, before, middle)
    requires 0 <= outer * parts[n].count
    requires Charged(plan, m, p, parts[n].size, outer * parts[n].count, outer, n + 1 == |parts|, middle, after)
    ensures ChargedTo(plan, m, p, outer, parts, n + 1, before, after)
  {
    hide Plan.Segment;
    forall c: Counter
      ensures after.At(c) == before.At(c) + IntTimes(outer, ClassSum(parts[..n + 1], plan.SegmentCost(c, m, p)))
        + if n + 1 == |parts| then IntTimes(outer, LastCorrection(plan, c, m, p, parts[n].size)) else 0
    {
      assert parts[..n + 1][..n] == parts[..n];
      ClassStep(outer, parts[n].count, plan.Segment(c, m, p, parts[n].size, false),
                ClassSum(parts[..n], plan.SegmentCost(c, m, p)));
      assert ClassSum(parts[..n + 1], plan.SegmentCost(c, m, p))
          == ClassSum(parts[..n], plan.SegmentCost(c, m, p))
            + parts[n].count * plan.Segment(c, m, p, parts[n].size, false);
    }
  }

  lemma ClassStep(outer: nat, count: nat, x: int, head: int)
    ensures IntTimes(outer, head) + IntTimes(outer * count, x) == IntTimes(outer, head + count * x)
  {
    Regroup3(outer, count, x);
  }

  const ONE: Cost := (t: nat) => 1

  lemma {:induction false} CountTiles(tiles: seq<nat>)
    ensures TileSum(tiles, ONE) == |tiles|
  {
    if |tiles| > 0 {
      CountTiles(tiles[1..]);
    }
  }

  /** One class of output tiles: output, segments by class, and spills. */
  method ChargeCell(plan: Plan, m: nat, p: nat, outer: nat, before: Totals) returns (totals: Totals)
    ensures Gained(before, totals, outer, c => plan.Cell(c, m, p))
    ensures before.Balanced() ==> totals.Balanced()
  {
    var parts := Parts(plan.layer.reduction, plan.s.reduction);
    ghost var tiles := Tiles(plan.layer.reduction, plan.s.reduction);
    PartsShape(plan.layer.reduction, plan.s.reduction);
    ClassesAreTiles(plan.layer.reduction, plan.s.reduction, ONE);
    CountTiles(tiles);
    hide Parts, Tiles, Gained, Charged, ChargedTo, Plan.Cell;
    totals := ChargeOutput(plan, m, p, outer, before);
    ghost var start := totals;
    NothingCharged(plan, m, p, outer, parts, start);
    for n := 0 to |parts|
      invariant ChargedTo(plan, m, p, outer, parts, n, start, totals)
      invariant before.Balanced() ==> totals.Balanced()
    {
      var k, nk := parts[n].size, parts[n].count;
      MulNonnegative(outer, nk);
      ghost var middle := totals;
      totals := ChargeClass(plan, m, p, k, outer * nk, outer, k == parts[|parts| - 1].size, totals);
      ChargedStep(plan, m, p, outer, parts, n, start, middle, totals);
    }
    var segments := ClassSum(parts, ONE);
    ghost var charged := totals;
    totals := ChargeSpills(plan, m, p, outer, segments, totals);
    CellCharged(plan, m, p, outer, before, start, charged, totals);
  }

  lemma NothingCharged(plan: Plan, m: nat, p: nat, outer: nat, parts: seq<Class>, start: Totals)
    requires |parts| > 0
    ensures ChargedTo(plan, m, p, outer, parts, 0, start, start)
  {
    hide Plan.Segment;
    forall c: Counter
      ensures IntTimes(outer, ClassSum(parts[..0], plan.SegmentCost(c, m, p))) == 0
    {
      assert parts[..0] == [];
    }
  }

  lemma CellCharged(plan: Plan, m: nat, p: nat, outer: nat, before: Totals, start: Totals, charged: Totals,
                    after: Totals)
    requires
      var parts, tiles := Parts(plan.layer.reduction, plan.s.reduction), Tiles(plan.layer.reduction, plan.s.reduction);
      && Gained(before, start, outer, c => plan.Output(c, m, p))
      && ChargedTo(plan, m, p, outer, parts, |parts|, start, charged)
      && Gained(charged, after, outer, c => plan.Spills(c, m, p, |tiles|))
    ensures Gained(before, after, outer, c => plan.Cell(c, m, p))
  {
    var parts := Parts(plan.layer.reduction, plan.s.reduction);
    assert parts[..|parts|] == parts;
    hide Parts, Tiles, Plan.Segment, Plan.Output, Plan.Spills, Plan.Segments, Plan.Cell, ClassSum, LastCorrection,
         IntTimes;
    forall c: Counter
      ensures after.At(c) == before.At(c) + IntTimes(outer, plan.Cell(c, m, p))
    {
      CellAt(plan, c, m, p, outer, before.At(c), start.At(c), charged.At(c), after.At(c));
    }
  }

  lemma CellAt(plan: Plan, c: Counter, m: nat, p: nat, outer: nat, before: int, start: int, charged: int, after: int)
    requires start == before + IntTimes(outer, plan.Output(c, m, p))
    requires var parts := Parts(plan.layer.reduction, plan.s.reduction);
      charged == start + IntTimes(outer, ClassSum(parts, plan.SegmentCost(c, m, p)))
                 + IntTimes(outer, LastCorrection(plan, c, m, p, parts[|parts| - 1].size))
    requires after == charged + IntTimes(outer, plan.Spills(c, m, p, |Tiles(plan.layer.reduction, plan.s.reduction)|))
    ensures after == before + IntTimes(outer, plan.Cell(c, m, p))
  {
    hide Parts, Tiles, Plan.Segment, Plan.Output, Plan.Spills, Plan.Segments, ClassSum, TileSum, IntTimes, Plan.Cell,
         Plan.SegmentCost, LastCorrection;
    var tiles := Tiles(plan.layer.reduction, plan.s.reduction);
    SegmentsByClass(plan, c, m, p);
    CellParts(plan, c, m, p);
    CellTotal(outer, before, start, charged, after, plan.Output(c, m, p),
              ClassSum(Parts(plan.layer.reduction, plan.s.reduction), plan.SegmentCost(c, m, p)),
              plan.Segments(c, m, p, tiles), plan.Spills(c, m, p, |tiles|), plan.Cell(c, m, p));
  }

  /** The segments of one output tile, by class with the last one corrected. */
  lemma SegmentsByClass(plan: Plan, c: Counter, m: nat, p: nat)
    ensures var parts := Parts(plan.layer.reduction, plan.s.reduction);
      LastCorrection(plan, c, m, p, parts[|parts| - 1].size)
      == plan.Segments(c, m, p, Tiles(plan.layer.reduction, plan.s.reduction))
         - ClassSum(parts, plan.SegmentCost(c, m, p))
  {
    var length, tile := plan.layer.reduction, plan.s.reduction;
    LastPart(length, tile);
    hide Parts, Tiles, Plan.Segment, Plan.Segments, ClassSum, TileSum, Plan.SegmentCost;
    ClassesAreTiles(length, tile, plan.SegmentCost(c, m, p));
    LastSegment(plan, c, m, p, Tiles(length, tile));
  }

  lemma CellTotal(outer: nat, before: int, start: int, charged: int, after: int, output: int, all: int, segments: int,
                  spills: int, cell: int)
    requires start == before + IntTimes(outer, output)
    requires charged == start + IntTimes(outer, all) + IntTimes(outer, segments - all)
    requires after == charged + IntTimes(outer, spills)
    requires cell == output + segments + spills
    ensures after == before + IntTimes(outer, cell)
  {
    TimesSum(outer, output, all, segments - all, spills);
  }

  lemma CellParts(plan: Plan, c: Counter, m: nat, p: nat)
    ensures var tiles := Tiles(plan.layer.reduction, plan.s.reduction);
      plan.Cell(c, m, p) == plan.Output(c, m, p) + plan.Segments(c, m, p, tiles) + plan.Spills(c, m, p, |tiles|)
  {
    hide Tiles, Plan.Output, Plan.Segments, Plan.Spills;
  }

  lemma LastPart(length: Positive, tile: Positive)
    ensures |Tiles(length, tile)| > 0
    ensures Parts(length, tile)[|Parts(length, tile)| - 1].size == Tiles(length, tile)[|Tiles(length, tile)| - 1]
  {
    PartsShape(length, tile);
  }

  lemma TimesSum(n: int, a: int, b: int, c: int, d: int)
    ensures IntTimes(n, a) + IntTimes(n, b) + IntTimes(n, c) + IntTimes(n, d) == IntTimes(n, a + (b + c) + d)
  {
  }

  // ----- the whole layer -----

  /** max over banks of a tile's occupancy, with operand copies */
  function Occupancy(plan: Plan, m: nat, p: nat, k: nat): nat {
    var out, banks := plan.Outputs(m, p), plan.s.org.banks;
    var operands := plan.Operands(m, p, k);
    var copied := if plan.s.doubleBuffer then SumLoads(operands, operands) else operands;
    Cycles(SumLoads(copied, Striped([out.payload, out.metadata, out.bias], banks)), 1)
  }

  /** allocated_bits: whole rows of words over all banks. */
  function Allocated(words: nat, org: Organization): nat {
    MulNonnegative(CeilDiv(words, org.banks), org.banks);
    MulNonnegative(CeilDiv(words, org.banks) * org.banks, org.wordBits);
    CeilDiv(words, org.banks) * org.banks * org.wordBits
  }

  function Encoded(w: Words, org: Organization): nat { Allocated(w.payload, org) + Allocated(w.metadata, org) }

  /** The storage peaks of the report: the fullest bank in words, then allocated bits. */
  datatype Storage = FullestBank | LocalBanks | InputBanks | WeightBanks | OutputBanks | Registers

  /** What one tile occupies. */
  function Used(plan: Plan, what: Storage, m: nat, p: nat, k: nat): nat {
    var org, copies := plan.s.org, if plan.s.doubleBuffer then 2 else 1;
    var w, a, out := plan.Weights(m, k), plan.Inputs(m, p, k), plan.Outputs(m, p);
    match what
    case FullestBank => Occupancy(plan, m, p, k)
    case LocalBanks =>
      (Encoded(w, org) + Encoded(a, org)) * copies + (Encoded(out, org) + Allocated(out.bias, org))
    case InputBanks => Encoded(a, org) * copies
    case WeightBanks => Encoded(w, org) * copies
    case OutputBanks => Encoded(out, org) + Allocated(out.bias, org)
    case Registers =>
      MulNonnegative(m, p);
      MulNonnegative(m * p, plan.s.accumulatorBits);
      m * p * plan.s.accumulatorBits
  }

  /** Every tile of the layer, one by one. */
  ghost predicate IsTile(plan: Plan, m: nat, p: nat, k: nat) {
    && m in Tiles(plan.layer.outputChannels, plan.s.channels)
    && p in Tiles(plan.layer.positions, plan.s.positions)
    && k in Tiles(plan.layer.reduction, plan.s.reduction)
  }

  /** Rows of classes charged up to class i, and cells of class i up to j. */
  ghost predicate RowsCharged(plan: Plan, i: nat, totals: Totals)
    requires i <= |Parts(plan.layer.outputChannels, plan.s.channels)|
  {
    forall c: Counter ::
      totals.At(c) == ClassSum(Parts(plan.layer.outputChannels, plan.s.channels)[..i], plan.RowCost(c))
  }

  ghost predicate CellsCharged(plan: Plan, m: nat, nm: nat, j: nat, before: Totals, totals: Totals)
    requires j <= |Parts(plan.layer.positions, plan.s.positions)|
  {
    forall c: Counter :: totals.At(c)
      == before.At(c) + IntTimes(nm, ClassSum(Parts(plan.layer.positions, plan.s.positions)[..j], plan.CellCost(c, m)))
  }

  lemma CellsStep(plan: Plan, m: nat, nm: nat, j: nat, before: Totals, middle: Totals, after: Totals)
    requires j < |Parts(plan.layer.positions, plan.s.positions)|
    requires CellsCharged(plan, m, nm, j, before, middle)
    requires var part := Parts(plan.layer.positions, plan.s.positions)[j];
      0 <= nm * part.count && Gained(middle, after, nm * part.count, c => plan.Cell(c, m, part.size))
    ensures CellsCharged(plan, m, nm, j + 1, before, after)
  {
    var parts := Parts(plan.layer.positions, plan.s.positions);
    hide Parts, Plan.Cell;
    assert parts[..j + 1][..j] == parts[..j];
    forall c: Counter
      ensures after.At(c) == before.At(c) + IntTimes(nm, ClassSum(parts[..j + 1], plan.CellCost(c, m)))
    {
      ClassStep(nm, parts[j].count, plan.Cell(c, m, parts[j].size), ClassSum(parts[..j], plan.CellCost(c, m)));
    }
  }

  lemma RowsStep(plan: Plan, i: nat, before: Totals, after: Totals)
    requires i < |Parts(plan.layer.outputChannels, plan.s.channels)| && RowsCharged(plan, i, before)
    requires var row := Parts(plan.layer.outputChannels, plan.s.channels)[i];
      CellsCharged(plan, row.size, row.count, |Parts(plan.layer.positions, plan.s.positions)|, before, after)
    ensures RowsCharged(plan, i + 1, after)
  {
    var rows, cells := Parts(plan.layer.outputChannels, plan.s.channels), Parts(plan.layer.positions, plan.s.positions);
    assert rows[..i + 1][..i] == rows[..i] && cells[..|cells|] == cells;
    forall c: Counter
      ensures after.At(c) == ClassSum(rows[..i + 1], plan.RowCost(c))
    {
      ClassesAreTiles(plan.layer.positions, plan.s.positions, plan.CellCost(c, rows[i].size));
    }
  }

  lemma NothingYet(plan: Plan, m: nat, nm: nat, totals: Totals)
    ensures RowsCharged(plan, 0, ZERO)
    ensures CellsCharged(plan, m, nm, 0, totals, totals)
  {
    hide Parts, Plan.Cell;
    assert Parts(plan.layer.outputChannels, plan.s.channels)[..0] == [];
    assert Parts(plan.layer.positions, plan.s.positions)[..0] == [];
  }

  /** All classes charged is every tile charged. */
  lemma AllCharged(plan: Plan, totals: Totals)
    requires RowsCharged(plan, |Parts(plan.layer.outputChannels, plan.s.channels)|, totals)
    ensures forall c: Counter :: totals.At(c) == plan.Naive(c)
  {
    var rows := Parts(plan.layer.outputChannels, plan.s.channels);
    assert rows[..|rows|] == rows;
    forall c: Counter
      ensures totals.At(c) == plan.Naive(c)
    {
      ClassesAreTiles(plan.layer.outputChannels, plan.s.channels, plan.RowCost(c));
    }
  }

  /** The loop over classes of positions. */
  method ChargeRow(plan: Plan, m: nat, nm: nat, before: Totals) returns (totals: Totals)
    ensures CellsCharged(plan, m, nm, |Parts(plan.layer.positions, plan.s.positions)|, before, totals)
    ensures before.Balanced() ==> totals.Balanced()
  {
    hide CellsCharged, RowsCharged, Gained, Plan.Cell, Parts, Totals.Balanced;
    totals := before;
    var cells := Parts(plan.layer.positions, plan.s.positions);
    NothingYet(plan, m, nm, totals);
    for j := 0 to |cells|
      invariant CellsCharged(plan, m, nm, j, before, totals)
      invariant before.Balanced() ==> totals.Balanced()
    {
      MulNonnegative(nm, cells[j].count);
      ghost var middle := totals;
      totals := ChargeCell(plan, m, cells[j].size, nm * cells[j].count, totals);
      CellsStep(plan, m, nm, j, before, middle, totals);
    }
  }

  /** The loop over classes of output channels. */
  method ChargeLayer(plan: Plan) returns (totals: Totals)
    ensures forall c: Counter :: totals.At(c) == plan.Naive(c)
    ensures totals.Balanced()
  {
    totals := ZERO;
    assert totals.Balanced();
    hide RowsCharged, CellsCharged, Plan.Naive, Parts, Totals.Balanced;
    var rows := Parts(plan.layer.outputChannels, plan.s.channels);
    NothingYet(plan, 0, 0, totals);
    for i := 0 to |rows|
      invariant RowsCharged(plan, i, totals) && totals.Balanced()
    {
      ghost var before := totals;
      totals := ChargeRow(plan, rows[i].size, rows[i].count, totals);
      RowsStep(plan, i, before, totals);
    }
    AllCharged(plan, totals);
  }

  method PeakOfCell(plan: Plan, what: Storage, m: nat, p: nat, segments: seq<Class>, start: nat) returns (peak: nat)
    ensures start <= peak && forall z :: 0 <= z < |segments| ==> Used(plan, what, m, p, segments[z].size) <= peak
    ensures peak == start || exists z :: 0 <= z < |segments| && Used(plan, what, m, p, segments[z].size) == peak
  {
    hide Used;
    peak := start;
    for n := 0 to |segments|
      invariant start <= peak && forall z :: 0 <= z < n ==> Used(plan, what, m, p, segments[z].size) <= peak
      invariant peak == start || exists z :: 0 <= z < n && Used(plan, what, m, p, segments[z].size) == peak
    {
      var used := Used(plan, what, m, p, segments[n].size);
      if used > peak {
        peak := used;
      }
    }
  }

  /** Bounded by the peak over every segment of a cell, or attaining it at one. */
  ghost predicate CellBelow(plan: Plan, what: Storage, m: nat, p: nat, segments: seq<Class>, peak: nat) {
    forall z :: 0 <= z < |segments| ==> Used(plan, what, m, p, segments[z].size) <= peak
  }

  ghost predicate Attained(plan: Plan, what: Storage, peak: nat) {
    exists m, p, k :: IsTile(plan, m, p, k) && Used(plan, what, m, p, k) == peak
  }

  method PeakOfRow(plan: Plan, what: Storage, m: nat, cells: seq<Class>, segments: seq<Class>, start: nat)
    returns (peak: nat)
    requires cells == Parts(plan.layer.positions, plan.s.positions)
    requires segments == Parts(plan.layer.reduction, plan.s.reduction)
    requires m in Tiles(plan.layer.outputChannels, plan.s.channels) && (start == 0 || Attained(plan, what, start))
    ensures start <= peak && (peak == 0 || Attained(plan, what, peak))
    ensures forall y :: 0 <= y < |cells| ==> CellBelow(plan, what, m, cells[y].size, segments, peak)
  {
    hide Used, Parts, Tiles, Attained;
    peak := start;
    for j := 0 to |cells|
      invariant start <= peak && (peak == 0 || Attained(plan, what, peak))
      invariant forall y :: 0 <= y < j ==> CellBelow(plan, what, m, cells[y].size, segments, peak)
    {
      ghost var before := peak;
      peak := PeakOfCell(plan, what, m, cells[j].size, segments, peak);
      CellAttains(plan, what, m, cells, segments, j, before, peak);
    }
  }

  /** A cell that raises the peak attains it at a tile. */
  lemma CellAttains(plan: Plan, what: Storage, m: nat, cells: seq<Class>, segments: seq<Class>, j: nat, before: nat,
                    peak: nat)
    requires cells == Parts(plan.layer.positions, plan.s.positions) && j < |cells|
    requires segments == Parts(plan.layer.reduction, plan.s.reduction)
    requires m in Tiles(plan.layer.outputChannels, plan.s.channels)
    requires peak == before
      || exists z :: 0 <= z < |segments| && Used(plan, what, m, cells[j].size, segments[z].size) == peak
    ensures peak == before || Attained(plan, what, peak)
  {
    PartsShape(plan.layer.positions, plan.s.positions);
    PartsShape(plan.layer.reduction, plan.s.reduction);
    hide Used, Parts, Tiles;
    if peak != before {
      var z :| 0 <= z < |segments| && Used(plan, what, m, cells[j].size, segments[z].size) == peak;
      assert IsTile(plan, m, cells[j].size, segments[z].size);
    }
  }

  /** The running maximum over classes is the peak over tiles. */
  method Peak(plan: Plan, what: Storage) returns (peak: nat)
    ensures IsPeak(plan, what, peak)
  {
    var rows := Parts(plan.layer.outputChannels, plan.s.channels);
    var cells := Parts(plan.layer.positions, plan.s.positions);
    var segments := Parts(plan.layer.reduction, plan.s.reduction);
    PartsShape(plan.layer.outputChannels, plan.s.channels);
    hide Used, Parts, Tiles, IsTile, Attained;
    peak := 0;
    for i := 0 to |rows|
      invariant peak == 0 || Attained(plan, what, peak)
      invariant forall x, y :: 0 <= x < i && 0 <= y < |cells| ==>
        CellBelow(plan, what, rows[x].size, cells[y].size, segments, peak)
    {
      ghost var before := peak;
      peak := PeakOfRow(plan, what, rows[i].size, cells, segments, peak);
      assert forall x, y :: 0 <= x < i && 0 <= y < |cells| ==>
        CellBelow(plan, what, rows[x].size, cells[y].size, segments, before);
    }
    forall m, p, k | IsTile(plan, m, p, k)
      ensures Used(plan, what, m, p, k) <= peak
    {
      var x, y, z := TileClass(plan, rows, cells, segments, m, p, k);
      assert CellBelow(plan, what, rows[x].size, cells[y].size, segments, peak);
    }
    SomeTile(plan, what, peak);
  }

  lemma TileClass(plan: Plan, rows: seq<Class>, cells: seq<Class>, segments: seq<Class>, m: nat, p: nat, k: nat)
    returns (x: nat, y: nat, z: nat)
    requires rows == Parts(plan.layer.outputChannels, plan.s.channels)
    requires cells == Parts(plan.layer.positions, plan.s.positions)
    requires segments == Parts(plan.layer.reduction, plan.s.reduction)
    requires IsTile(plan, m, p, k)
    ensures x < |rows| && y < |cells| && z < |segments|
    ensures rows[x].size == m && cells[y].size == p && segments[z].size == k
  {
    PartsShape(plan.layer.outputChannels, plan.s.channels);
    PartsShape(plan.layer.positions, plan.s.positions);
    PartsShape(plan.layer.reduction, plan.s.reduction);
    hide Parts, Tiles;
    var a :| a in rows && a.size == m;
    var b :| b in cells && b.size == p;
    var c :| c in segments && c.size == k;
    x :| 0 <= x < |rows| && rows[x] == a;
    y :| 0 <= y < |cells| && cells[y] == b;
    z :| 0 <= z < |segments| && segments[z] == c;
  }

  /** The peak is the largest use over all single tiles, and some tile has it. */
  ghost predicate IsPeak(plan: Plan, what: Storage, peak: nat) {
    && (forall m, p, k :: IsTile(plan, m, p, k) ==> Used(plan, what, m, p, k) <= peak)
    && Attained(plan, what, peak)
  }

  /** Some tile exists, so a zero peak is attained as well. */
  lemma SomeTile(plan: Plan, what: Storage, peak: nat)
    requires forall m, p, k :: IsTile(plan, m, p, k) ==> Used(plan, what, m, p, k) <= peak
    requires peak == 0 || Attained(plan, what, peak)
    ensures IsPeak(plan, what, peak)
  {
    PartsShape(plan.layer.outputChannels, plan.s.channels);
    PartsShape(plan.layer.positions, plan.s.positions);
    PartsShape(plan.layer.reduction, plan.s.reduction);
    hide Used, Tiles, Parts;
    var m, p := Tiles(plan.layer.outputChannels, plan.s.channels)[0], Tiles(plan.layer.positions, plan.s.positions)[0];
    assert IsTile(plan, m, p, Tiles(plan.layer.reduction, plan.s.reduction)[0]);
  }

  /** The report: totals before and after scale caching, every storage peak, and whether every tile fits. */
  method EvaluateLayer(plan: Plan) returns (totals: Totals, peaks: map<Storage, nat>, fits: Option<bool>)
    ensures forall c: Counter :: c != ExternalBits ==> totals.At(c) == plan.Naive(c)
    ensures totals.externalBits == plan.Naive(ExternalBits)
      + if plan.fmt.scaling.Mapped? && plan.s.cacheScales
        then 3 * CeilDiv(MAPPED_SCALE_BITS, plan.s.org.wordBits) * plan.s.org.wordBits - plan.Naive(ScaleBits) else 0
    ensures plan.Naive(ExternalBits) == plan.Naive(WeightBits) + plan.Naive(InputBits) + plan.Naive(OutputBits)
      + plan.Naive(BiasBits) + plan.Naive(ScaleBits) + plan.Naive(SpillBits)
    ensures forall what: Storage :: what in peaks && IsPeak(plan, what, peaks[what])
    ensures fits.None? <==> plan.s.org.depth.None?
    ensures fits.Some? ==>
      (fits.value <==> forall m, p, k :: IsTile(plan, m, p, k) ==> Occupancy(plan, m, p, k) <= plan.s.org.depth.value)
  {
    hide Plan.Naive, Occupancy, IsTile, Tiles;
    totals := ChargeLayer(plan);
    assert forall c: Counter :: totals.At(c) == plan.Naive(c);
    assert totals.At(WeightBits) == plan.Naive(WeightBits) && totals.At(InputBits) == plan.Naive(InputBits)
        && totals.At(OutputBits) == plan.Naive(OutputBits) && totals.At(BiasBits) == plan.Naive(BiasBits)
        && totals.At(ScaleBits) == plan.Naive(ScaleBits) && totals.At(SpillBits) == plan.Naive(SpillBits)
        && totals.At(ExternalBits) == plan.Naive(ExternalBits);
    hide IsPeak;
    if plan.fmt.scaling.Mapped? && plan.s.cacheScales {
      totals := totals.(externalBits := totals.externalBits - totals.scaleBits);
      totals := totals.(externalBits :=
        totals.externalBits + 3 * CeilDiv(MAPPED_SCALE_BITS, plan.s.org.wordBits) * plan.s.org.wordBits);
    }
    peaks := Peaks(plan);
    fits := None;
    if plan.s.org.depth.Some? {
      fits := Some(peaks[FullestBank] <= plan.s.org.depth.value);
      FullestFits(plan, peaks[FullestBank], plan.s.org.depth.value);
    }
  }

  method Peaks(plan: Plan) returns (peaks: map<Storage, nat>)
    ensures forall what: Storage :: what in peaks && IsPeak(plan, what, peaks[what])
  {
    hide IsPeak;
    var bank := Peak(plan, FullestBank);
    var banks := Peak(plan, LocalBanks);
    var inputs := Peak(plan, InputBanks);
    var weights := Peak(plan, WeightBanks);
    var outputs := Peak(plan, OutputBanks);
    var registers := Peak(plan, Registers);
    peaks := map[FullestBank := bank, LocalBanks := banks, InputBanks := inputs, WeightBanks := weights,
                 OutputBanks := outputs, Registers := registers];
    forall what: Storage
      ensures what in peaks && IsPeak(plan, what, peaks[what])
    {
      match what
      case FullestBank =>
      case LocalBanks =>
      case InputBanks =>
      case WeightBanks =>
      case OutputBanks =>
      case Registers =>
    }
  }

  /** The fullest bank of all decides whether every tile fits. */
  lemma FullestFits(plan: Plan, peak: nat, depth: nat)
    requires IsPeak(plan, FullestBank, peak)
    ensures peak <= depth <==> forall m, p, k :: IsTile(plan, m, p, k) ==> Occupancy(plan, m, p, k) <= depth
  {
    hide Occupancy, IsTile;
    assert forall m, p, k :: Used(plan, FullestBank, m, p, k) == Occupancy(plan, m, p, k);
  }

  // ----- the cost of one tile, without its words and loads -----

  /** The words of one tile: lines packed on their own, the scales its format asks for, and its biases. */
  ghost predicate IsTileOf(w: Words, lines: nat, values: nat, biases: nat, s: Schedule, fmt: Format) {
    && 0 <= values * fmt.bits && 0 <= biases * s.biasBits
    && IsPacked(w.payload, lines, values * fmt.bits, s.org.wordBits)
    && IsPacked(w.bias, 1, biases * s.biasBits, s.org.wordBits)
    && match fmt.scaling
       case Unscaled => w.metadata == 0
       case Mapped => IsPacked(w.metadata, 1, 64, s.org.wordBits)
       case Shared(scaleBits, block) =>
         exists blocks: nat ::
           && IsLeast(blocks, values, block) && 0 <= lines * blocks * scaleBits
           && IsPacked(w.metadata, 1, lines * blocks * scaleBits, s.org.wordBits)
  }

  lemma LayoutIsTile(lines: nat, values: nat, biases: nat, s: Schedule, fmt: Format)
    ensures IsTileOf(LayoutOf(lines, values, biases, s, fmt), lines, values, biases, s, fmt)
  {
    MulNonnegative(values, fmt.bits);
    MulNonnegative(biases, s.biasBits);
    ArrayPacked(lines, values * fmt.bits, s.org.wordBits);
    ArrayPacked(1, biases * s.biasBits, s.org.wordBits);
    match fmt.scaling {
      case Unscaled =>
      case Mapped => ArrayPacked(1, 64, s.org.wordBits);
      case Shared(scaleBits, block) =>
        var blocks := CeilDiv(values, block);
        CeilLeast(values, block);
        MulNonnegative(lines, blocks);
        MulNonnegative(lines * blocks, scaleBits);
        ArrayPacked(1, lines * blocks * scaleBits, s.org.wordBits);
        hide IsPacked, ArrayWords, CeilDiv, IsLeast;
    }
  }

  /**
   The arrays of a tile of m channels, p positions and k terms: m lines of k weights;
   p lines of k inputs, one set for all channels unless each has its own; m lines of
   p outputs with m biases.
   */
  lemma TileArrays(plan: Plan, m: nat, p: nat, k: nat)
    ensures IsTileOf(plan.Weights(m, k), m, k, 0, plan.s, plan.fmt)
    ensures 0 <= m * p
    ensures IsTileOf(plan.Inputs(m, p, k), if plan.layer.depthwise then m * p else p, k, 0, plan.s, plan.fmt)
    ensures IsTileOf(plan.Outputs(m, p), m, p, if plan.layer.bias then m else 0, plan.s, plan.fmt)
  {
    hide LayoutOf, IsTileOf;
    MulNonnegative(m, p);
    LayoutIsTile(m, k, 0, plan.s, plan.fmt);
    LayoutIsTile(if plan.layer.depthwise then m * p else p, k, 0, plan.s, plan.fmt);
    LayoutIsTile(m, p, if plan.layer.bias then m else 0, plan.s, plan.fmt);
  }

  /** What one bank receives of several arrays, each dealt from bank zero. */
  function Share(fields: seq<nat>, banks: Positive, bank: nat): nat {
    if |fields| == 0 then 0 else Dealt(fields[0], banks, bank) + Share(fields[1..], banks, bank)
  }

  lemma {:induction false} ShareLast(fields: seq<nat>, banks: Positive, bank: nat)
    requires |fields| > 0
    ensures Share(fields, banks, bank)
         == Share(fields[..|fields| - 1], banks, bank) + Dealt(fields[|fields| - 1], banks, bank)
  {
    if |fields| > 1 {
      ShareLast(fields[1..], banks, bank);
      assert fields[1..][..|fields| - 2] == fields[..|fields| - 1][1..];
    }
  }

  lemma {:induction false} StripedShare(fields: seq<nat>, banks: Positive, bank: nat)
    requires bank < banks
    ensures Striped(fields, banks)[bank] == Share(fields, banks, bank)
  {
    if |fields| > 0 {
      StripedShare(fields[..|fields| - 1], banks, bank);
      LoadDealt(fields[|fields| - 1], banks, bank);
      ShareLast(fields, banks, bank);
      hide BankLoads;
    }
  }

  /** Port cycles suffice exactly when every bank is served in them. */
  lemma CyclesSuffice(loads: seq<nat>, ports: Positive, c: nat)
    requires |loads| > 0
    ensures Cycles(loads, ports) <= c <==> forall b :: 0 <= b < |loads| ==> loads[b] <= c * ports
  {
    hide CeilDiv;
    forall b | 0 <= b < |loads|
      ensures CeilDiv(loads[b], ports) <= c <==> loads[b] <= c * ports
    {
      CeilLeast(loads[b], ports);
    }
    hide Cycles;
  }

  /** The weight and input arrays of a segment. */
  function OperandFields(plan: Plan, m: nat, p: nat, k: nat): seq<nat> {
    var w, a := plan.Weights(m, k), plan.Inputs(m, p, k);
    [w.payload, w.metadata, a.payload, a.metadata]
  }

  /** The arrays that a segment reads from its banks: the last one also output scales and biases. */
  function ReadFields(plan: Plan, m: nat, p: nat, k: nat, last: bool): seq<nat> {
    var out := plan.Outputs(m, p);
    OperandFields(plan, m, p, k) + if last then [out.metadata, out.bias] else []
  }

  /** And those that it writes: the last one also outputs and output scales. */
  function WrittenFields(plan: Plan, m: nat, p: nat, k: nat, last: bool): seq<nat> {
    var out := plan.Outputs(m, p);
    OperandFields(plan, m, p, k) + if last then [out.payload, out.metadata] else []
  }

  ghost predicate Served(fields: seq<nat>, banks: Positive, ports: Positive, c: nat) {
    forall b :: 0 <= b < banks ==> Share(fields, banks, b) <= c * ports
  }

  lemma {:induction false} ShareJoined(fields: seq<nat>, more: seq<nat>, banks: Positive, bank: nat)
    ensures Share(fields + more, banks, bank) == Share(fields, banks, bank) + Share(more, banks, bank)
  {
    if |fields| > 0 {
      ShareJoined(fields[1..], more, banks, bank);
      assert (fields + more)[1..] == fields[1..] + more;
    } else {
      assert fields + more == more;
    }
  }

  /** Every bank's load is its share of the arrays. */
  ghost predicate AreShares(loads: seq<nat>, fields: seq<nat>, banks: Positive) {
    |loads| == banks && forall b :: 0 <= b < banks ==> loads[b] == Share(fields, banks, b)
  }

  lemma StripedShares(fields: seq<nat>, banks: Positive)
    ensures AreShares(Striped(fields, banks), fields, banks)
  {
    forall b | 0 <= b < banks
      ensures Striped(fields, banks)[b] == Share(fields, banks, b)
    {
      StripedShare(fields, banks, b);
    }
  }

  lemma SumOfShares(loads: seq<nat>, fields: seq<nat>, more: seq<nat>, banks: Positive)
    requires AreShares(loads, fields, banks)
    ensures AreShares(SumLoads(loads, Striped(more, banks)), fields + more, banks)
  {
    StripedShares(more, banks);
    hide Share, Striped;
    forall b | 0 <= b < banks
      ensures Share(fields + more, banks, b) == Share(fields, banks, b) + Share(more, banks, b)
    {
      ShareJoined(fields, more, banks, b);
    }
  }

  lemma OperandShares(plan: Plan, m: nat, p: nat, k: nat)
    ensures AreShares(plan.Operands(m, p, k), OperandFields(plan, m, p, k), plan.s.org.banks)
  {
    var w, a, banks := plan.Weights(m, k), plan.Inputs(m, p, k), plan.s.org.banks;
    hide AreShares, Striped;
    StripedShares([w.payload, w.metadata], banks);
    SumOfShares(Striped([w.payload, w.metadata], banks), [w.payload, w.metadata], [a.payload, a.metadata], banks);
    assert [w.payload, w.metadata] + [a.payload, a.metadata] == OperandFields(plan, m, p, k);
  }

  lemma SharesServed(loads: seq<nat>, fields: seq<nat>, banks: Positive, ports: Positive, c: nat)
    requires AreShares(loads, fields, banks)
    ensures Cycles(loads, ports) <= c <==> Served(fields, banks, ports, c)
  {
    hide Share, Cycles;
    CyclesSuffice(loads, ports, c);
  }

  /** A segment's port cycles are the fewest that serve every bank what it reads and writes. */
  lemma SegmentCycles(plan: Plan, m: nat, p: nat, k: nat, last: bool, c: nat)
    ensures plan.Reads(m, p, k, last) <= c
       <==> Served(ReadFields(plan, m, p, k, last), plan.s.org.banks, plan.s.org.readPorts, c)
    ensures plan.Writes(m, p, k, last) <= c
       <==> Served(WrittenFields(plan, m, p, k, last), plan.s.org.banks, plan.s.org.writePorts, c)
  {
    var org, out, operands := plan.s.org, plan.Outputs(m, p), plan.Operands(m, p, k);
    var fields, read, written := OperandFields(plan, m, p, k), [out.metadata, out.bias], [out.payload, out.metadata];
    OperandShares(plan, m, p, k);
    hide AreShares, Served, Striped, Plan.Operands, Plan.Outputs, OperandFields, Cycles;
    SumOfShares(operands, fields, read, org.banks);
    SumOfShares(operands, fields, written, org.banks);
    assert fields + [] == fields;
    SharesServed(operands, fields, org.banks, org.readPorts, c);
    SharesServed(operands, fields, org.banks, org.writePorts, c);
    SharesServed(SumLoads(operands, Striped(read, org.banks)), fields + read, org.banks, org.readPorts, c);
    SharesServed(SumLoads(operands, Striped(written, org.banks)), fields + written, org.banks, org.writePorts, c);
  }

  /** What a bank holds of a tile: the operands, twice when they are double-buffered, and the output arrays. */
  function Held(plan: Plan, m: nat, p: nat, k: nat, bank: nat): int {
    var out, banks := plan.Outputs(m, p), plan.s.org.banks;
    var operands := Share(OperandFields(plan, m, p, k), banks, bank);
    (if plan.s.doubleBuffer then operands + operands else operands)
    + Share([out.payload, out.metadata, out.bias], banks, bank)
  }

  /** The occupancy is the least depth that holds every bank. */
  lemma OccupancyOfBanks(plan: Plan, m: nat, p: nat, k: nat, depth: nat)
    ensures Occupancy(plan, m, p, k) <= depth
       <==> forall b: nat :: b < plan.s.org.banks ==> Held(plan, m, p, k, b) <= depth
  {
    var org, out, operands := plan.s.org, plan.Outputs(m, p), plan.Operands(m, p, k);
    var stored := [out.payload, out.metadata, out.bias];
    var loads := SumLoads(if plan.s.doubleBuffer then SumLoads(operands, operands) else operands,
                          Striped(stored, org.banks));
    OperandShares(plan, m, p, k);
    StripedShares(stored, org.banks);
    hide Share, Striped, Plan.Operands, Plan.Outputs, OperandFields, Cycles;
    forall b: nat | b < org.banks
      ensures loads[b] == Held(plan, m, p, k, b)
    {
      assert operands[b] == Share(OperandFields(plan, m, p, k), org.banks, b);
      assert Striped(stored, org.banks)[b] == Share(stored, org.banks, b);
    }
    hide AreShares, Held;
    CyclesSuffice(loads, 1, depth);
  }

  /** An allocation is the fewest whole rows of banks that hold its words. */
  lemma AllocatedRows(words: nat, org: Organization) returns (rows: nat)
    ensures IsLeast(rows, words, org.banks) && Allocated(words, org) == rows * org.banks * org.wordBits
  {
    rows := CeilDiv(words, org.banks);
    CeilLeast(words, org.banks);
  }

  /** The peaks of a tile: two copies of each operand array when double-buffered, and one of the outputs. */
  lemma UsedByTile(plan: Plan, m: nat, p: nat, k: nat)
    ensures var org, copies := plan.s.org, if plan.s.doubleBuffer then 2 else 1;
            var w, a, out := plan.Weights(m, k), plan.Inputs(m, p, k), plan.Outputs(m, p);
      && Used(plan, WeightBanks, m, p, k) == copies * (Allocated(w.payload, org) + Allocated(w.metadata, org))
      && Used(plan, InputBanks, m, p, k) == copies * (Allocated(a.payload, org) + Allocated(a.metadata, org))
      && Used(plan, OutputBanks, m, p, k)
         == Allocated(out.payload, org) + Allocated(out.metadata, org) + Allocated(out.bias, org)
      && Used(plan, LocalBanks, m, p, k)
         == Used(plan, WeightBanks, m, p, k) + Used(plan, InputBanks, m, p, k) + Used(plan, OutputBanks, m, p, k)
      && Used(plan, Registers, m, p, k) == SegmentProducts(m, p)(plan.s.accumulatorBits)
  {
    hide Allocated, Plan.Weights, Plan.Inputs, Plan.Outputs, Occupancy;
    var org, w, a := plan.s.org, plan.Weights(m, k), plan.Inputs(m, p, k);
    var copies: nat := if plan.s.doubleBuffer then 2 else 1;
    assert (Encoded(w, org) + Encoded(a, org)) * copies == Encoded(w, org) * copies + Encoded(a, org) * copies;
  }

  /** A segment computes for the fewest cycles that perform its products, and a spill moves the fewest words. */
  lemma SegmentCompute(plan: Plan, m: nat, p: nat, k: nat, c: nat)
    ensures plan.Compute(m, p, k) <= c <==> SegmentProducts(m, p)(k) <= c * plan.s.macPerCycle
    ensures plan.AccumulatorWords(m, p) <= c
       <==> SegmentProducts(m, p)(plan.s.accumulatorBits) <= c * plan.s.org.wordBits
  {
    MulNonnegative(m, p);
    MulNonnegative(m * p, k);
    MulNonnegative(m * p, plan.s.accumulatorBits);
    CeilLeast(m * p * k, plan.s.macPerCycle);
    CeilLeast(m * p * plan.s.accumulatorBits, plan.s.org.wordBits);
    hide CeilDiv;
  }

  // ----- products -----

  function SegmentProducts(m: nat, p: nat): Cost { (k: nat) => m * p * k }

  function CellProducts(plan: Plan, m: nat): Cost {
    (p: nat) => TileSum(Tiles(plan.layer.reduction, plan.s.reduction), SegmentProducts(m, p))
  }

  function RowProducts(plan: Plan): Cost {
    (m: nat) => TileSum(Tiles(plan.layer.positions, plan.s.positions), CellProducts(plan, m))
  }

  /** The tiles perform every product of the layer exactly once. */
  lemma ProductsConserved(plan: Plan)
    ensures TileSum(Tiles(plan.layer.outputChannels, plan.s.channels), RowProducts(plan))
         == plan.layer.outputChannels * plan.layer.positions * plan.layer.reduction
  {
    var K, P := plan.layer.reduction, plan.layer.positions;
    forall m: nat, p: nat
      ensures CellProducts(plan, m)(p) == p * (m * K)
    {
      assert forall k: nat :: SegmentProducts(m, p)(k) == k * (m * p);
      TilesCover(K, plan.s.reduction, SegmentProducts(m, p), m * p);
      assert K * (m * p) == p * (m * K);
    }
    forall m: nat
      ensures RowProducts(plan)(m) == m * (P * K)
    {
      TilesCover(P, plan.s.positions, CellProducts(plan, m), m * K);
      assert P * (m * K) == m * (P * K);
    }
    TilesCover(plan.layer.outputChannels, plan.s.channels, RowProducts(plan), P * K);
    Regroup3(plan.layer.outputChannels, P, K);
  }
}
