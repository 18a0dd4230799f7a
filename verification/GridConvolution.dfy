/**
 The certified integer convolution kernel, which skips taps outside the image,
 against the sequential reduction that pads them with zeros.
 */
module GridConvolution {
  import opened ExactArithmetic
  import opened IntArithmetic
  import opened FloatAccumulator
  import opened Quantum
  import opened GridUnits
  import opened GridBackend
  import opened Convolution
  import opened Results
  import BlockedTensor

  lemma DotPrefixStep(taps: seq<int>, row: seq<int>, tap: int)
    requires |taps| < |row|
    ensures Dot(taps + [tap], row[..|taps| + 1]) == Dot(taps, row[..|taps|]) + IntTimes(tap, row[|taps|])
    ensures IntTimes(0, row[|taps|]) == 0
  {
    DotStep(taps + [tap], row[..|taps| + 1]);
    assert (taps + [tap])[..|taps|] == taps && row[..|taps| + 1][..|taps|] == row[..|taps|];
  }

  /** A tap inside the image reads the input; any other is zero. */
  lemma TapValue(s: Source<int>, b: nat, channel: nat, iy: int, ix: int)
    requires s.Valid() && s.zero == 0 && b < s.g.n && channel < s.g.ci
    ensures 0 <= iy < s.g.h && 0 <= ix < s.g.w ==>
      && 0 <= InputIndex(s.g, b, channel, iy, ix) < |s.x|
      && s.Tap(b, channel, iy, ix) == s.x[InputIndex(s.g, b, channel, iy, ix)]
    ensures !(0 <= iy < s.g.h && 0 <= ix < s.g.w) ==> s.Tap(b, channel, iy, ix) == 0
  {
    hide InputIndex;
    if 0 <= iy < s.g.h && 0 <= ix < s.g.w {
      InputInRange(s.g, b, channel, iy, ix);
    }
  }

  /** The innermost loop: one kernel row, its weights starting at `base`. */
  method GridKernelRow(s: Source<int>, row: seq<int>, o: Output, ic: nat, kr: nat, base: nat, start: int,
                       ghost before: seq<int>) returns (units: int)
    requires s.Valid() && s.zero == 0 && o.In(s.g) && ic < s.g.GroupInputs() && kr < s.g.kh
    requires |before| == base && base + s.g.kw <= |row| && start == Dot(before, row[..base])
    ensures |KernelRow(s, o, ic, kr, s.g.kw)| == s.g.kw
    ensures units == Dot(before + KernelRow(s, o, ic, kr, s.g.kw), row[..base + s.g.kw])
  {
    var g := s.g;
    GroupChannel(g, o.group, ic);
    var channel := o.group * g.GroupInputs() + ic;
    hide Dot, TapRow, TapColumn, InputIndex, Source.Tap, Geometry.Valid, Source.Valid, Output.In;
    hide KernelRow, IntTimes;
    units := start;
    ghost var taps := before;
    KernelRowStart(s, o, ic, kr, before);
    for kc := 0 to g.kw
      invariant |KernelRow(s, o, ic, kr, kc)| == kc && taps == before + KernelRow(s, o, ic, kr, kc)
      invariant units == Dot(taps, row[..base + kc])
    {
      var iy, ix := TapRow(g, o.y, kr), TapColumn(g, o.x, kc);
      TapValue(s, o.b, channel, iy, ix);
      if 0 <= iy < g.h && 0 <= ix < g.w {
        units := units + IntTimes(s.x[InputIndex(g, o.b, channel, iy, ix)], row[base + kc]);
      }
      DotPrefixStep(taps, row, s.Tap(o.b, channel, iy, ix));
      KernelRowStep(s, o, ic, kr, kc, before);
      taps := taps + [s.Tap(o.b, channel, iy, ix)];
    }
  }

  /** Row kr of a plane of kh rows of kw weights. */
  lemma RowWithin(base: nat, length: nat, kr: nat, kh: nat, kw: nat)
    requires kr < kh && base + kh * kw <= length
    ensures 0 <= kr * kw && (kr + 1) * kw == kr * kw + kw && base + kr * kw + kw <= length
  {
    BlockRange(kr, kh, kw);
  }

  lemma RowBase(ic: nat, kr: nat, kh: nat, kw: nat)
    ensures (ic * kh + kr) * kw == ic * (kh * kw) + kr * kw
    ensures (ic * kh + kr) * kw >= 0
  {
    MulNonnegative(ic, kh);
    MulNonnegative(ic * kh + kr, kw);
    Regroup3(ic, kh, kw);
  }

  method GridPlane(s: Source<int>, row: seq<int>, o: Output, ic: nat, start: int, ghost before: seq<int>)
    returns (units: int)
    requires s.Valid() && s.zero == 0 && o.In(s.g) && ic < s.g.GroupInputs()
    requires |before| == ic * (s.g.kh * s.g.kw) && |before| + s.g.kh * s.g.kw <= |row|
    requires start == Dot(before, row[..|before|])
    ensures |Plane(s, o, ic, s.g.kh)| == s.g.kh * s.g.kw
    ensures units == Dot(before + Plane(s, o, ic, s.g.kh), row[..|before| + s.g.kh * s.g.kw])
  {
    var g := s.g;
    hide Dot, KernelRow, Plane, Geometry.Valid;
    units := start;
    NoRows(s, o, ic, before);
    ghost var taps := before;
    for kr := 0 to g.kh
      invariant |Plane(s, o, ic, kr)| == kr * g.kw && taps == before + Plane(s, o, ic, kr)
      invariant units == Dot(taps, row[..|before| + kr * g.kw])
    {
      RowWithin(|before|, |row|, kr, g.kh, g.kw);
      RowBase(ic, kr, g.kh, g.kw);
      units := GridKernelRow(s, row, o, ic, kr, (ic * g.kh + kr) * g.kw, units, taps);
      PlaneStep(s, o, ic, kr, before);
      taps := taps + KernelRow(s, o, ic, kr, g.kw);
    }
  }

  /** One output of the integer kernel. */
  method GridOutput(s: Source<int>, row: seq<int>, o: Output) returns (units: int)
    requires s.Valid() && s.zero == 0 && o.In(s.g) && |row| == s.g.K()
    ensures |Taps(s, o, s.g.GroupInputs())| == |row|
    ensures units == Dot(Taps(s, o, s.g.GroupInputs()), row)
  {
    var g := s.g;
    TapPosition(0, 0, 0, g.kh, g.kw, g.GroupInputs());
    hide Dot, Plane, Geometry.Valid;
    EmptyRow(row);
    units := 0;
    for ic := 0 to g.GroupInputs()
      invariant |Taps(s, o, ic)| == ic * (g.kh * g.kw) <= |row|
      invariant units == Dot(Taps(s, o, ic), row[..|Taps(s, o, ic)|])
    {
      BlockRange(ic, g.GroupInputs(), g.kh * g.kw);
      units := GridPlane(s, row, o, ic, units, Taps(s, o, ic));
    }
    assert row[..|row|] == row;
  }

  lemma EmptyRow(row: seq<int>)
    ensures Dot([], row[..0]) == 0
  {
  }

  /** The taps of admitted records are the values of the taps of their units. */
  lemma TapsInUnits(rows: Source<Native>, units: Source<int>, o: Output, shift: nat, maximum: nat)
    requires rows.Valid() && units.Valid() && rows.g == units.g && rows.zero == ZERO && units.zero == 0 && o.In(rows.g)
    requires InUnits(rows.x, units.x, shift)
    requires forall i :: 0 <= i < |units.x| ==> AbsInt(units.x[i]) <= maximum
    ensures InUnits(Taps(rows, o, rows.g.GroupInputs()), Taps(units, o, units.g.GroupInputs()), shift)
    ensures forall i :: 0 <= i < |Taps(units, o, units.g.GroupInputs())| ==>
      AbsInt(Taps(units, o, units.g.GroupInputs())[i]) <= maximum
  {
    var g := rows.g;
    var left, right := Taps(rows, o, g.GroupInputs()), Taps(units, o, g.GroupInputs());
    TapsAt(rows, o, g.GroupInputs(), 0, 0);
    TapsAt(units, o, g.GroupInputs(), 0, 0);
    hide Taps, InUnit, TapRow, TapColumn, InUnits;
    forall i | 0 <= i < |left|
      ensures InUnit(left[i], right[i], shift, maximum)
    {
      var channel, kr, kc := TapOf(g, i);
      TapAt(rows, o, channel, kr, kc);
      TapAt(units, o, channel, kr, kc);
      TapInUnit(rows, units, o, shift, maximum, o.group * g.GroupInputs() + channel, TapRow(g, o.y, kr),
                TapColumn(g, o.x, kc));
    }
    AllInUnits(left, right, shift, maximum);
  }

  ghost predicate InUnit(row: Native, u: int, shift: nat, maximum: nat) {
    row.Prepared() && row.IsFinite() && row.Value() == GridValue(u, shift) && AbsInt(u) <= maximum
  }

  lemma AllInUnits(rows: seq<Native>, units: seq<int>, shift: nat, maximum: nat)
    requires |rows| == |units| && forall i :: 0 <= i < |rows| ==> InUnit(rows[i], units[i], shift, maximum)
    ensures InUnits(rows, units, shift)
    ensures forall i :: 0 <= i < |units| ==> AbsInt(units[i]) <= maximum
  {
    hide GridValue, Native.Value, Native.Prepared, Native.IsFinite;
    forall i | 0 <= i < |units|
      ensures AbsInt(units[i]) <= maximum
    {
      assert InUnit(rows[i], units[i], shift, maximum);
    }
  }

  lemma TapInUnit(rows: Source<Native>, units: Source<int>, o: Output, shift: nat, maximum: nat, channel: nat, iy: int,
                  ix: int)
    requires rows.Valid() && units.Valid() && rows.g == units.g && rows.zero == ZERO && units.zero == 0
    requires o.b < rows.g.n && channel < rows.g.ci
    requires InUnits(rows.x, units.x, shift)
    requires forall i :: 0 <= i < |units.x| ==> AbsInt(units.x[i]) <= maximum
    ensures InUnit(rows.Tap(o.b, channel, iy, ix), units.Tap(o.b, channel, iy, ix), shift, maximum)
  {
    ZeroInUnits(shift);
    hide GridValue, Native.Value, Native.Prepared, Native.IsFinite, Geometry.Valid, InputIndex;
    if 0 <= iy < rows.g.h && 0 <= ix < rows.g.w {
      InputInRange(rows.g, o.b, channel, iy, ix);
    }
  }

  lemma ZeroInUnits(shift: nat)
    ensures ZERO.Prepared() && ZERO.IsFinite() && ZERO.Value() == GridValue(0, shift)
  {
    assert IntPow2(30) > 0;
  }

  /** The input channel, kernel row and kernel column of a tap. */
  lemma TapOf(g: Geometry, i: nat) returns (channel: nat, kr: nat, kc: nat)
    requires g.Valid() && i < g.GroupInputs() * (g.kh * g.kw)
    ensures channel < g.GroupInputs() && kr < g.kh && kc < g.kw && i == (channel * g.kh + kr) * g.kw + kc
  {
    MulPositive(g.kh, g.kw);
    RowColumn(i, g.GroupInputs(), g.kh * g.kw);
    channel := i / (g.kh * g.kw);
    RowColumn(i % (g.kh * g.kw), g.kh, g.kw);
    kr, kc := i % (g.kh * g.kw) / g.kw, i % (g.kh * g.kw) % g.kw;
    TapPosition(channel, kr, kc, g.kh, g.kw, g.GroupInputs());
  }

  /**
   With certified weights and admitted inputs, the skipping kernel has the state
   of the padded sequential reduction.
   */
  lemma ConvolutionExact(grid: Grid, record: Record, rows: Source<Native>, units: Source<int>, ws: seq<Native>,
                         o: Output, channel: nat)
    requires grid.Valid() && record.Sound(grid) && AllPrepared(rows.x) && AllPrepared(ws)
    requires rows.Valid() && units == Source(rows.g, units.x, 0) && units.Valid() && rows.zero == ZERO && o.In(rows.g)
    requires UnitsOf(grid, rows.x) == Some(units.x) && UnitsOf(grid, ws) == Some(record.units)
    requires record.channels == rows.g.co && record.k == rows.g.K() && channel < rows.g.co
    requires |ws| == rows.g.co * rows.g.K()
    ensures |Taps(rows, o, rows.g.GroupInputs())| == rows.g.K() == |Taps(units, o, rows.g.GroupInputs())|
    ensures SequentialState(BINARY64, Taps(rows, o, rows.g.GroupInputs()), Block(ws, channel, rows.g.co, rows.g.K()))
         == GridState(Taps(units, o, rows.g.GroupInputs()), Block(record.units, channel, rows.g.co, rows.g.K()),
                      grid.codes.shift)
  {
    var g := rows.g;
    TapsAt(rows, o, g.GroupInputs(), 0, 0);
    TapsAt(units, o, g.GroupInputs(), 0, 0);
    TapPosition(0, 0, 0, g.kh, g.kw, g.GroupInputs());
    GridAllowed(grid);
    hide Grid.Valid, UnitsOf, SequentialState, GridState, InUnits, AllPrepared, Taps, Geometry.Valid;
    WholeInUnits(grid, rows.x, units.x);
    TapsInUnits(rows, units, o, grid.codes.shift, grid.codes.maximum);
    AdmittedBlock(grid, ws, record.units, channel, g.co, g.K());
    GridExact(Taps(rows, o, g.GroupInputs()), Block(ws, channel, g.co, g.K()), Taps(units, o, g.GroupInputs()),
              Block(record.units, channel, g.co, g.K()), grid.codes.shift, grid.codes.maximum);
  }

  lemma WholeInUnits(grid: Grid, rows: seq<Native>, units: seq<int>)
    requires grid.Valid() && AllPrepared(rows) && UnitsOf(grid, rows) == Some(units)
    ensures InUnits(rows, units, grid.codes.shift)
    ensures forall i :: 0 <= i < |units| ==> AbsInt(units[i]) <= grid.codes.maximum
  {
    AdmittedBlock(grid, rows, units, 0, 1, |rows|);
    assert Block(rows, 0, 1, |rows|) == rows && Block(units, 0, 1, |rows|) == units;
  }

  // ----- the whole convolution -----

  lemma TapsLength<T>(s: Source<T>, o: Output)
    requires s.Valid() && o.In(s.g)
    ensures |Taps(s, o, s.g.GroupInputs())| == s.g.K()
  {
    TapsAt(s, o, s.g.GroupInputs(), 0, 0);
    TapPosition(0, 0, 0, s.g.kh, s.g.kw, s.g.GroupInputs());
  }

  ghost predicate Weighted<T, U>(s: Source<T>, ws: seq<U>) { s.Valid() && |ws| == s.g.co * s.g.K() }

  function States(g: Geometry): int { g.n * g.co * (g.oh * g.ow) }

  /** One state for every output channel and position of every image. */
  lemma StatesOfImage(g: Geometry)
    ensures States(g) == BlockedTensor.Size([g.n, g.co, g.oh, g.ow])
  {
    BlockedTensor.SizeOfFour(g.n, g.co, g.oh, g.ow);
    assert g.n * g.co * (g.oh * g.ow) == g.n * g.co * g.oh * g.ow;
  }

  /** The reference state of one output: the sequential reduction over its padded taps. */
  function DirectState(f: FloatFormat, s: Source<Native>, ws: seq<Native>, o: nat): Stored
    requires Weighted(s, ws) && o < States(s.g)
  {
    StateAddressed(s.g, o);
    TapsLength(s, OutputAt(s.g, o));
    SequentialState(f, Taps(s, OutputAt(s.g, o), s.g.GroupInputs()), Block(ws, ChannelOf(s.g, o), s.g.co, s.g.K()))
  }

  /** The state the integer kernel writes. */
  function KernelState(s: Source<int>, ws: seq<int>, shift: nat, o: nat): Stored
    requires Weighted(s, ws) && o < States(s.g)
  {
    StateAddressed(s.g, o);
    TapsLength(s, OutputAt(s.g, o));
    GridState(Taps(s, OutputAt(s.g, o), s.g.GroupInputs()), Block(ws, ChannelOf(s.g, o), s.g.co, s.g.K()), shift)
  }

  /** Column, row, channel and image of a state, divided off one after the other. */
  lemma Peeled(n: nat, channels: Positive, oh: Positive, ow: Positive, o: nat)
    requires oh * ow > 0 && o < n * channels * (oh * ow)
    ensures o / ow / oh == o / (oh * ow)
    ensures o % ow == o % (oh * ow) % ow && o / ow % oh == o % (oh * ow) / ow
  {
    var p := oh * ow;
    RowColumn(o, n * channels, p);
    RowColumn(o % p, oh, ow);
    var q, y, x := o / p, o % p / ow, o % p % ow;
    assert q * p == (q * oh) * ow;
    assert (q * oh + y) * ow == (q * oh) * ow + y * ow;
    DivUnique(o, ow, q * oh + y, x);
    DivUnique(q * oh + y, oh, q, y);
  }

  /** The indices the kernel computes are those of the state's output. */
  lemma KernelIndices(g: Geometry, o: nat)
    requires g.Valid() && o < States(g)
    ensures 0 <= o / g.ow / g.oh % g.co < g.co && o / g.ow / g.oh % g.co == ChannelOf(g, o)
    ensures g.GroupOutputs() > 0
    ensures o / g.ow / g.oh / g.co >= 0 && ChannelOf(g, o) / g.GroupOutputs() >= 0
    ensures o / g.ow % g.oh >= 0 && o % g.ow >= 0
    ensures Output(o / g.ow / g.oh / g.co, ChannelOf(g, o) / g.GroupOutputs(), o / g.ow % g.oh, o % g.ow)
         == OutputAt(g, o)
  {
    var p := g.oh * g.ow;
    PositionsPositive(g);
    GroupOutputsPositive(g);
    StateAddressed(g, o);
    Peeled(g.n, g.co, g.oh, g.ow, o);
    RowColumn(o, g.n * g.co, p);
    RowColumn(o / p, g.n, g.co);
    RowColumn(o % p, g.oh, g.ow);
    DivUnique(RowOf(g, o), p, o / p / g.co, o % p);
    RowColumn(ChannelOf(g, o), g.groups, g.GroupOutputs());
  }

  /** pe_grid_v2_conv2d: every output state by its own skipping loops. */
  method ConvolutionKernel(s: Source<int>, ws: seq<int>, shift: nat) returns (states: seq<Stored>)
    requires Weighted(s, ws) && s.zero == 0
    ensures |states| == States(s.g) && forall o :: 0 <= o < |states| ==> states[o] == KernelState(s, ws, shift, o)
  {
    var g := s.g;
    MulNonnegative(g.n, g.co);
    MulNonnegative(g.oh, g.ow);
    MulNonnegative(g.n * g.co, g.oh * g.ow);
    hide Dot, Taps, OutputAt, ChannelOf, Geometry.K, LoadExponent;
    states := [];
    for output := 0 to States(g)
      invariant |states| == output
      invariant forall o :: 0 <= o < output ==> states[o] == KernelState(s, ws, shift, o)
    {
      KernelIndices(g, output);
      var index := output;
      var ox := index % g.ow;
      index := index / g.ow;
      var oy := index % g.oh;
      index := index / g.oh;
      var oc, batch := index % g.co, index / g.co;
      var units := GridOutput(s, Block(ws, oc, g.co, g.K()), Output(batch, oc / g.GroupOutputs(), oy, ox));
      states := states + [LoadExponent(units, 0 - 2 * shift)];
    }
  }

  /** With certified weights and admitted inputs every state is the reference state. */
  lemma ConvolutionAgrees(grid: Grid, record: Record, rows: Source<Native>, units: seq<int>, ws: seq<Native>, o: nat)
    requires grid.Valid() && record.Sound(grid) && AllPrepared(rows.x) && AllPrepared(ws)
    requires Weighted(rows, ws) && rows.zero == ZERO && o < States(rows.g)
    requires UnitsOf(grid, rows.x) == Some(units) && UnitsOf(grid, ws) == Some(record.units)
    requires record.channels == rows.g.co && record.k == rows.g.K()
    ensures Weighted(Source(rows.g, units, 0), record.units)
    ensures KernelState(Source(rows.g, units, 0), record.units, grid.codes.shift, o)
         == DirectState(BINARY64, rows, ws, o)
  {
    GridAllowed(grid);
    hide Grid.Valid, Geometry.Valid, AllPrepared, SequentialState, GridState, Taps, OutputAt;
    UnitsLength(grid, rows.x, units);
    StateAddressed(rows.g, o);
    var image := Source(rows.g, units, 0);
    TapsLength(image, OutputAt(rows.g, o));
    TapsLength(rows, OutputAt(rows.g, o));
    ConvolutionExact(grid, record, rows, image, ws, OutputAt(rows.g, o), ChannelOf(rows.g, o));
  }

  /** The attributes a convolution weight is looked up with. */
  ghost function Attributes(g: Geometry): map<string, int> {
    map["sh" := g.sh, "sw" := g.sw, "ph" := g.ph, "pw" := g.pw, "dh" := g.dh, "dw" := g.dw, "groups" := g.groups]
  }

  ghost predicate IsConvolution(found: Option<Found>, g: Geometry) {
    && found.Some? && found.value.record.operation in {"conv2d", "depthwise_conv2d"}
    && var record := found.value.record;
       record.channels == g.co && record.k == g.K()
       && |record.shape| > 3 && record.shape[2] == g.kh && record.shape[3] == g.kw
  }

  /** The checks on the geometry and on the lengths of inputs and weights. */
  method CheckPayload(s: Source<Native>, ws: seq<Native>) returns (accepted: bool)
    ensures accepted <==> Weighted(s, ws)
  {
    var g := s.g;
    accepted := CheckGeometry(g);
    hide Geometry.Valid;
    return accepted && |s.x| == g.n * g.ci * g.h * g.w && |ws| == g.co * g.K();
  }

  /** A certified convolution weight for this geometry and admitted activations in the certified accumulator. */
  ghost predicate UsesGridKernel(grid: Grid, records: seq<Record>, xs: seq<Native>, ws: seq<Native>, g: Geometry,
                           accumulator: FloatFormat)
    requires |grid.allowed| == 2 * grid.codes.maximum + 1
  {
    accumulator == BINARY64 && IsConvolution(Fresh(grid, records, ws, Attributes(g)), g) && UnitsOf(grid, xs).Some?
  }

  /** Every state is that of the sequential reduction over padded taps. */
  ghost predicate AreDirect(f: FloatFormat, s: Source<Native>, ws: seq<Native>, states: seq<Stored>)
    requires Weighted(s, ws)
  {
    |states| == States(s.g) && forall o :: 0 <= o < |states| ==> states[o] == DirectState(f, s, ws, o)
  }

  /** The certified branch: the kernel on units, and its agreement with the reference. */
  method CertifiedConvolution(grid: Grid, ghost records: seq<Record>, rows: Source<Native>, ws: seq<Native>,
                              xu: seq<int>, found: Found) returns (states: seq<Stored>)
    requires grid.Valid() && forall r :: r in records ==> r.Sound(grid)
    requires Weighted(rows, ws) && rows.zero == ZERO
    requires UnitsOf(grid, rows.x) == Some(xu) && Fresh(grid, records, ws, Attributes(rows.g)) == Some(found)
    requires IsConvolution(Some(found), rows.g)
    ensures AllPrepared(rows.x) && AllPrepared(ws) ==> AreDirect(BINARY64, rows, ws, states)
  {
    GridAllowed(grid);
    hide Grid.Valid, Fresh, AllPrepared, Record.Sound, KernelState, DirectState, Geometry.Valid;
    UnitsLength(grid, rows.x, xu);
    FreshSound(grid, records, ws, Attributes(rows.g), found);
    UnitsLength(grid, ws, found.units);
    hide UnitsOf;
    states := ConvolutionKernel(Source(rows.g, xu, 0), found.units, grid.codes.shift);
    if AllPrepared(rows.x) && AllPrepared(ws) {
      forall o | 0 <= o < |states|
        ensures states[o] == DirectState(BINARY64, rows, ws, o)
      {
        ConvolutionAgrees(grid, found.record, rows, xu, ws, o);
      }
    }
  }

  /** The sequential fallback over all outputs. */
  method SequentialConvolution(f: FloatFormat, s: Source<Native>, ws: seq<Native>) returns (states: seq<Stored>)
    requires Weighted(s, ws)
    ensures AreDirect(f, s, ws, states)
  {
    MulNonnegative(s.g.n, s.g.co);
    MulNonnegative(s.g.oh, s.g.ow);
    MulNonnegative(s.g.n * s.g.co, s.g.oh * s.g.ow);
    hide DirectState;
    states := [];
    for o := 0 to States(s.g)
      invariant |states| == o && forall i :: 0 <= i < o ==> states[i] == DirectState(f, s, ws, i)
    {
      states := states + [DirectState(f, s, ws, o)];
    }
  }

  /** The certified entry of a weight, if it is one for this geometry. */
  method CertifiedWeight(backend: CertifiedBackend, weights: NativeValues, g: Geometry) returns (found: Option<Found>)
    requires backend.Valid()
    modifies backend`cache
    ensures backend.Valid() && backend.lastStrategy == old(backend.lastStrategy)
    ensures |backend.grid.allowed| == 2 * backend.grid.codes.maximum + 1
    ensures var current := Fresh(backend.grid, backend.records, weights.buffer.rows, Attributes(g));
      found == if IsConvolution(current, g) then current else None
  {
    backend.ValidMeans();
    hide CertifiedBackend.Valid, CertifiedBackend.Formed, Grid.Valid, Record.Sound, Fresh;
    found := backend.Weight(
      weights,
      map["sh" := g.sh, "sw" := g.sw, "ph" := g.ph, "pw" := g.pw, "dh" := g.dh, "dw" := g.dw, "groups" := g.groups]);
    if found.None? || found.value.record.operation !in {"conv2d", "depthwise_conv2d"} {
      return None;
    }
    var record := found.value.record;
    if record.channels != g.co || record.k != g.K() || |record.shape| <= 3 || record.shape[2] != g.kh
       || record.shape[3] != g.kw {
      return None;
    }
  }

  /**
   flex_conv2d of the certified backend: whichever kernel is chosen, every output
   has the state of the sequential reduction over its padded taps.
   */
  method FlexConv2d(backend: CertifiedBackend, inputs: NativeValues, weights: NativeValues, g: Geometry,
                    accumulator: FloatFormat, fallbackStrategy: string) returns (states: Result<seq<Stored>>)
    requires backend.Valid()
    modifies backend`cache, backend`lastStrategy
    ensures backend.Valid()
    ensures states.Success? <==> Weighted(Source(g, inputs.buffer.rows, ZERO), weights.buffer.rows)
    ensures states.Success? ==>
      var xs, ws := inputs.buffer.rows, weights.buffer.rows;
      var grids := UsesGridKernel(backend.grid, backend.records, xs, ws, g, accumulator);
      && backend.lastStrategy == (if grids then CERTIFIED_STRATEGY else fallbackStrategy)
      && (!grids || (AllPrepared(xs) && AllPrepared(ws)) ==>
            AreDirect(accumulator, Source(g, xs, ZERO), ws, states.value))
  {
    backend.ValidMeans();
    hide CertifiedBackend.Valid, CertifiedBackend.Formed, Grid.Valid, Record.Sound, Fresh, UnitsOf, AllPrepared,
         AreDirect, Geometry.Valid, IsConvolution, Weighted, Attributes;
    var xs, ws := inputs.buffer.rows, weights.buffer.rows;
    var rows := Source(g, xs, ZERO);
    var accepted := CheckPayload(rows, ws);
    if !accepted {
      return Failure("version-2 convolution payload does not match geometry");
    }
    if accumulator == BINARY64 {
      var found := CertifiedWeight(backend, weights, g);
      if found.Some? {
        var x := UnitsOf(backend.grid, xs);
        if x.Some? {
          backend.Chose(CERTIFIED_STRATEGY);
          var certified := CertifiedConvolution(backend.grid, backend.records, rows, ws, x.value, found.value);
          return Success(certified);
        }
      }
    }
    backend.Chose(fallbackStrategy);
    var reference := SequentialConvolution(accumulator, rows, ws);
    return Success(reference);
  }
}
