/**
 The a-priori register width of a network: per channel, the interval that every
 prefix of the reduction stays in, and why a register of the certified width
 never clamps on any input.
 */
module WidthCertificate {
  import opened ExactArithmetic
  import opened IntArithmetic
  import opened IntegerSum
  import opened Quantum
  import opened SaturatingRegister
  import opened GraphRun
  import opened Results

  /** A MAC in grid units: the input code range, the units of a decoded input, and the weights of every channel. */
  datatype MacUnits = MacUnits(low: int, high: int, grid: real -> int, weights: seq<seq<int>>) {
    /** max_a * (positive - negative) */
    function Absolute(channel: nat): int
      requires channel < |weights|
    {
      MaxInt(AbsInt(low), AbsInt(high)) * (Positives(weights[channel]) - Negatives(weights[channel]))
    }

    function RangeHigh(channel: nat): int
      requires channel < |weights|
    {
      Positives(weights[channel]) * high + Negatives(weights[channel]) * low
    }

    function RangeLow(channel: nat): int
      requires channel < |weights|
    {
      Positives(weights[channel]) * low + Negatives(weights[channel]) * high
    }

    /** The code range contains zero and every decoded input. */
    ghost predicate Covers(decode: nat -> real) {
      && low <= 0 <= high && grid(0.0) == 0
      && forall code: nat :: low <= grid(decode(code)) <= high
    }
  }

  function Positives(ws: seq<int>): int {
    if |ws| == 0 then 0 else Positives(ws[..|ws| - 1]) + MaxInt(ws[|ws| - 1], 0)
  }

  function Negatives(ws: seq<int>): int {
    if |ws| == 0 then 0 else Negatives(ws[..|ws| - 1]) + MinInt(ws[|ws| - 1], 0)
  }

  /** The exact products of one output. */
  function Products(m: MacUnits, channel: nat, xs: seq<real>): seq<int> {
    if channel < |m.weights| && |m.weights[channel]| == |xs|
    then seq(|xs|, j requires 0 <= j < |xs| => m.grid(xs[j]) * m.weights[channel][j])
    else []
  }

  function Path(units: Layer -> MacUnits, finish: (Layer, nat, int) -> Option<nat>): Datapath {
    Datapath((layer: Layer, channel: nat, xs: seq<real>) => Products(units(layer), channel, xs), finish)
  }

  // ----- the interval of one channel -----

  /** Every prefix of the products lies between the sums of the smallest and of the largest terms. */
  lemma {:induction false} PrefixInRange(low: int, high: int, xs: seq<int>, ws: seq<int>, terms: seq<int>, n: nat)
    requires low <= 0 <= high && |xs| == |ws| == |terms| && n <= |terms|
    requires forall j :: 0 <= j < |xs| ==> low <= xs[j] <= high && terms[j] == xs[j] * ws[j]
    ensures Positives(ws) * low + Negatives(ws) * high <= IntSum(terms[..n])
    ensures IntSum(terms[..n]) <= Positives(ws) * high + Negatives(ws) * low
    decreases |ws|
  {
    if |ws| > 0 {
      var k := |ws| - 1;
      PrefixInRange(low, high, xs[..k], ws[..k], terms[..k], if n <= k then n else k);
      TermRange(low, high, xs[k], ws[k], Positives(ws[..k]), Negatives(ws[..k]));
      if n <= k {
        assert terms[..k][..n] == terms[..n];
      } else {
        assert terms[..n] == terms && terms[..k][..k] == terms[..k];
      }
    } else {
      assert terms[..n] == [];
    }
  }

  /** One more weight widens the interval by its term, and by zero. */
  lemma TermRange(low: int, high: int, x: int, w: int, p: int, n: int)
    requires low <= x <= high && low <= 0 <= high
    ensures var p', n' := p + MaxInt(w, 0), n + MinInt(w, 0);
      && p' * low + n' * high <= p * low + n * high + MinInt(x * w, 0)
      && p * high + n * low + MaxInt(x * w, 0) <= p' * high + n' * low
  {
    var q, m := MaxInt(w, 0), MinInt(w, 0);
    DistributeInt(p, q, low);
    DistributeInt(n, m, high);
    DistributeInt(p, q, high);
    DistributeInt(n, m, low);
    TermInterval(low, high, x, w);
  }

  lemma DistributeInt(a: int, b: int, c: int)
    ensures (a + b) * c == a * c + b * c
  {
  }

  /** A term lies, as zero does, between the products of its weight with the ends of the code range. */
  lemma TermInterval(low: int, high: int, x: int, w: int)
    requires low <= x <= high && low <= 0 <= high
    ensures var q, m := MaxInt(w, 0), MinInt(w, 0);
      && q * low + m * high <= MinInt(x * w, 0) && MaxInt(x * w, 0) <= q * high + m * low
  {
    TimesOrder(low, x, w);
    TimesOrder(x, high, w);
    TimesOrder(low, 0, w);
    TimesOrder(0, high, w);
  }

  lemma TimesOrder(a: int, b: int, w: int)
    requires a <= b
    ensures w >= 0 ==> w * a <= w * b
    ensures w <= 0 ==> w * b <= w * a
    ensures w * 0 == 0
  {
    assert (b - a) * w == w * b - w * a;
    if w >= 0 {
      MulNonnegative(b - a, w);
    } else {
      MulNonnegative(b - a, -w);
    }
  }

  lemma {:induction false} SignedTotals(ws: seq<int>)
    ensures Negatives(ws) <= 0 <= Positives(ws)
  {
    if |ws| > 0 {
      SignedTotals(ws[..|ws| - 1]);
    }
  }

  /** The terms of inputs that are a at positive weights and b elsewhere. */
  function Opposed(a: int, b: int, ws: seq<int>): (terms: seq<int>)
    ensures |terms| == |ws|
    ensures forall j :: 0 <= j < |ws| ==> terms[j] == a * ws[j] || terms[j] == b * ws[j]
  {
    seq(|ws|, j requires 0 <= j < |ws| => if ws[j] > 0 then a * ws[j] else b * ws[j])
  }

  lemma {:induction false} OpposedSum(a: int, b: int, ws: seq<int>)
    ensures IntSum(Opposed(a, b, ws)) == Positives(ws) * a + Negatives(ws) * b
  {
    if |ws| > 0 {
      var k := |ws| - 1;
      OpposedSum(a, b, ws[..k]);
      assert Opposed(a, b, ws)[..k] == Opposed(a, b, ws[..k]);
      DistributeInt(Positives(ws[..k]), MaxInt(ws[k], 0), a);
      DistributeInt(Negatives(ws[..k]), MinInt(ws[k], 0), b);
    }
  }

  /** Inputs at the ends of the code range reach both ends of the interval, those of the largest magnitude the bound. */
  lemma RangeAttained(m: MacUnits, channel: nat)
    requires channel < |m.weights|
    ensures IntSum(Opposed(m.high, m.low, m.weights[channel])) == m.RangeHigh(channel)
    ensures IntSum(Opposed(m.low, m.high, m.weights[channel])) == m.RangeLow(channel)
    ensures var a := MaxInt(AbsInt(m.low), AbsInt(m.high));
      IntSum(Opposed(a, 0 - a, m.weights[channel])) == m.Absolute(channel)
  {
    var a, ws := MaxInt(AbsInt(m.low), AbsInt(m.high)), m.weights[channel];
    OpposedSum(m.high, m.low, ws);
    OpposedSum(m.low, m.high, ws);
    OpposedSum(a, 0 - a, ws);
    Distribute(Positives(ws), Negatives(ws), a);
  }

  lemma Distribute(p: int, n: int, a: int)
    ensures p * a + n * (0 - a) == a * (p - n)
  {
  }

  /** The absolute bound covers the interval. */
  lemma RangeWithinAbsolute(m: MacUnits, channel: nat)
    requires channel < |m.weights| && m.low <= 0 <= m.high
    ensures -m.Absolute(channel) <= m.RangeLow(channel) <= 0 <= m.RangeHigh(channel) <= m.Absolute(channel)
  {
    SignedTotals(m.weights[channel]);
    var a, p, n := MaxInt(AbsInt(m.low), AbsInt(m.high)), Positives(m.weights[channel]), Negatives(m.weights[channel]);
    MulNonnegative(a - m.high, p);
    MulNonnegative(a + m.low, p);
    MulNonnegative(a - m.high, -n);
    MulNonnegative(a + m.low, -n);
    MulNonnegative(m.high, p);
    MulNonnegative(-m.low, p);
    MulNonnegative(m.high, -n);
    MulNonnegative(-m.low, -n);
    Expand(a, p, n, m.low, m.high);
  }

  lemma Expand(a: int, p: int, n: int, low: int, high: int)
    ensures a * (p - n) == a * p - a * n
    ensures (a - high) * p == a * p - p * high && (a + low) * p == a * p + p * low
    ensures (a - high) * -n == n * high - a * n && (a + low) * -n == -(a * n) - n * low
    ensures high * -n == -(n * high) && -low * -n == n * low && -low * p == -(p * low) && high * p == p * high
  {
  }

  // ----- widths -----

  /** signed_bits */
  function SignedBits(low: int, high: int): (bits: Width)
    requires low <= 0 <= high
  {
    MaxInt(BitLength(high), if low < 0 then BitLength(-low - 1) else 0) + 1
  }

  /** It is the smallest register that holds the interval. */
  lemma SignedBitsSmallest(low: int, high: int, w: Width)
    requires low <= 0 <= high
    ensures Fits(w, low) && Fits(w, high) <==> w >= SignedBits(low, high)
  {
    hide IntPow2, BitLength;
    BitLengthFits(high, w - 1);
    IntPow2Positive(w - 1);
    if low < 0 {
      BitLengthFits(-low - 1, w - 1);
    }
  }

  lemma IntPow2Positive(n: nat)
    ensures IntPow2(n) > 0
  {
  }

  /** The width of one channel: signed_bits_absolute. */
  function ChannelBits(m: MacUnits, channel: nat): nat
    requires channel < |m.weights|
  {
    BitLength(AbsInt(m.Absolute(channel))) + 1
  }

  function LayerBits(m: MacUnits, channels: nat): (bits: nat)
    requires channels <= |m.weights|
    ensures forall c: nat :: c < channels ==> ChannelBits(m, c) <= bits
  {
    if channels == 0 then 1 else MaxInt(LayerBits(m, channels - 1), ChannelBits(m, channels - 1))
  }

  /** The certified absolute width: the network maximum. */
  function NetworkBits(units: Layer -> MacUnits, nodes: seq<Node>): (bits: Width)
    ensures forall n :: 0 <= n < |nodes| && nodes[n].Mac? ==>
      LayerBits(units(nodes[n].layer), |units(nodes[n].layer).weights|) <= bits
  {
    if |nodes| == 0 then 1
    else
      var rest := NetworkBits(units, nodes[..|nodes| - 1]);
      assert forall n :: 0 <= n < |nodes| - 1 ==> nodes[n] == nodes[..|nodes| - 1][n];
      match nodes[|nodes| - 1]
      case Mac(_, _, _, layer) => MaxInt(rest, LayerBits(units(layer), |units(layer).weights|))
      case Other(_, _, _, _, _) => rest
  }

  lemma ChannelBitsSmallest(m: MacUnits, channel: nat, w: Width)
    requires channel < |m.weights|
    ensures ChannelBits(m, channel) <= w <==>
      var most := AbsInt(m.Absolute(channel)); Fits(w, most) && Fits(w, 0 - most)
  {
    hide BitLength, MacUnits.Absolute, IntPow2;
    BitLengthFits(AbsInt(m.Absolute(channel)), w - 1);
    IntPow2Step(w);
  }

  lemma IntPow2Step(w: Width)
    ensures IntPow2(w) == 2 * IntPow2(w - 1)
  {
  }

  lemma {:induction false} LayerBitsSmallest(m: MacUnits, channels: nat, w: Width)
    requires channels <= |m.weights|
    ensures LayerBits(m, channels) <= w <==> forall c: nat :: c < channels ==> ChannelBits(m, c) <= w
  {
    if channels > 0 {
      hide ChannelBits;
      LayerBitsSmallest(m, channels - 1, w);
    }
  }

  /** The extreme sums that the bound allows a channel. */
  ghost predicate HoldsChannels(m: MacUnits, w: Width) {
    forall c: nat :: c < |m.weights| ==>
      var most := AbsInt(m.Absolute(c)); Fits(w, most) && Fits(w, 0 - most)
  }

  lemma ChannelsHeld(m: MacUnits, w: Width)
    ensures HoldsChannels(m, w) <==> LayerBits(m, |m.weights|) <= w
  {
    LayerBitsSmallest(m, |m.weights|, w);
    hide ChannelBits, LayerBits, MacUnits.Absolute, Fits;
    forall c: nat | c < |m.weights|
      ensures ChannelBits(m, c) <= w <==>
        var most := AbsInt(m.Absolute(c)); Fits(w, most) && Fits(w, 0 - most)
    {
      ChannelBitsSmallest(m, c, w);
    }
  }

  /** The certified width is the smallest that holds the absolute bound of every channel of every MAC. */
  lemma {:induction false} NetworkBitsSmallest(units: Layer -> MacUnits, nodes: seq<Node>, w: Width)
    ensures NetworkBits(units, nodes) <= w <==>
      forall n :: 0 <= n < |nodes| && nodes[n].Mac? ==> HoldsChannels(units(nodes[n].layer), w)
  {
    hide LayerBits, HoldsChannels;
    if |nodes| > 0 {
      var k := |nodes| - 1;
      NetworkBitsSmallest(units, nodes[..k], w);
      if nodes[k].Mac? {
        ChannelsHeld(units(nodes[k].layer), w);
      }
      assert forall n :: 0 <= n < k ==> nodes[n] == nodes[..k][n];
    }
  }

  // ----- whole networks -----

  /** Gathered inputs of a MAC, padding included, are in its code range. */
  lemma GatheredInRange(m: MacUnits, decode: nat -> real, tensor: Tensor, taps: seq<Tap>, j: nat)
    requires m.Covers(decode) && j < |taps|
    ensures m.low <= m.grid(Gather(decode, tensor, taps)[j]) <= m.high
  {
  }

  /** A channel of the certified width is quiet on every tensor. */
  lemma ChannelIsQuiet(m: MacUnits, w: Width, channel: nat, decode: nat -> real, tensor: Tensor, taps: seq<Tap>)
    requires m.Covers(decode) && (channel < |m.weights| ==> w >= ChannelBits(m, channel))
    ensures Events(w, Products(m, channel, Gather(decode, tensor, taps))) == 0
  {
    hide Events, IntPow2, BitLength;
    var xs := Gather(decode, tensor, taps);
    var terms := Products(m, channel, xs);
    RangeHoldsZero(w);
    forall n | 0 <= n <= |terms|
      ensures Fits(w, IntSum(terms[..n]))
    {
      if terms == [] {
        assert terms[..n] == [];
      } else {
        PrefixFits(m, w, channel, decode, tensor, taps, n);
      }
    }
    QuietIffPrefixesFit(w, terms);
  }

  lemma PrefixFits(m: MacUnits, w: Width, channel: nat, decode: nat -> real, tensor: Tensor, taps: seq<Tap>, n: nat)
    requires m.Covers(decode) && channel < |m.weights| && |m.weights[channel]| == |taps| && n <= |taps|
    requires w >= ChannelBits(m, channel)
    ensures Fits(w, IntSum(Products(m, channel, Gather(decode, tensor, taps))[..n]))
  {
    hide IntPow2, BitLength, MacUnits.Absolute, IntSum, Gather;
    var xs := Gather(decode, tensor, taps);
    var units := seq(|xs|, j requires 0 <= j < |xs| => m.grid(xs[j]));
    forall j | 0 <= j < |units|
      ensures m.low <= units[j] <= m.high
    {
      GatheredInRange(m, decode, tensor, taps, j);
    }
    PrefixInRange(m.low, m.high, units, m.weights[channel], Products(m, channel, xs), n);
    RangeWithinAbsolute(m, channel);
    BitLengthFits(AbsInt(m.Absolute(channel)), w - 1);
  }

  /** No register of at least the certified width has an event anywhere, on any input. */
  lemma CertifiedRunIsQuiet(units: Layer -> MacUnits, finish: (Layer, nat, int) -> Option<nat>, w: Width,
                            nodes: seq<Node>, decode: nat -> real, env: Environment)
    requires forall n :: 0 <= n < |nodes| && nodes[n].Mac? ==> units(nodes[n].layer).Covers(decode)
    requires w >= NetworkBits(units, nodes)
    ensures QuietRun(Path(units, finish), w, nodes, decode, env)
  {
    hide Events, Products, ChannelBits, MacUnits.Covers, Run;
    var path := Path(units, finish);
    forall n | 0 <= n < |nodes| && nodes[n].Mac?
      ensures QuietLayer(path, w, nodes[n].layer, decode, Fed(nodes, path.Saturated(w), decode, env, n))
    {
      var layer, tensor := nodes[n].layer, Fed(nodes, path.Saturated(w), decode, env, n);
      forall o | 0 <= o < |layer.outputs|
        ensures Events(w, path.terms(layer, layer.outputs[o].channel, Gather(decode, tensor, layer.outputs[o].taps)))
             == 0
      {
        ChannelIsQuiet(units(layer), w, layer.outputs[o].channel, decode, tensor, layer.outputs[o].taps);
      }
    }
  }
}
