/**
 Grouped convolution by patches, per-group matrix products and a scatter,
 against direct convolution in the same tap order.
 */
module Convolution {
  import opened IntArithmetic
  import opened Results
  import BlockedTensor
  import MatrixProduct

  datatype Geometry = Geometry(n: nat, ci: nat, h: nat, w: nat, co: nat, kh: nat, kw: nat, oh: nat, ow: nat,
                               sh: nat, sw: nat, ph: nat, pw: nat, dh: nat, dw: nat, groups: nat) {
    ghost predicate Positive() {
      n > 0 && ci > 0 && h > 0 && w > 0 && co > 0 && kh > 0 && kw > 0 && oh > 0 && ow > 0
      && sh > 0 && sw > 0 && dh > 0 && dw > 0 && groups > 0
    }

    /** Every value is below 2^31. */
    ghost predicate Int32() {
      forall v :: v in [n, ci, h, w, co, kh, kw, oh, ow, sh, sw, ph, pw, dh, dw, groups] ==> v < 0x8000_0000
    }

    /** The geometries that flex_conv2d accepts. */
    ghost predicate Valid() {
      && Int32() && Positive()
      && ci % groups == 0 && co % groups == 0
      && oh == (h + 2 * ph - dh * (kh - 1) - 1) / sh + 1
      && ow == (w + 2 * pw - dw * (kw - 1) - 1) / sw + 1
    }

    /** Input and output channels of one group. */
    function GroupInputs(): nat { if groups == 0 then 0 else ci / groups }

    function GroupOutputs(): nat { if groups == 0 then 0 else co / groups }

    function K(): nat { GroupInputs() * kh * kw }
  }

  /** The checks of flex_conv2d on its geometry, one after the other. */
  method CheckGeometry(g: Geometry) returns (accepted: bool)
    ensures accepted <==> g.Valid()
  {
    var values := [g.n, g.ci, g.h, g.w, g.co, g.kh, g.kw, g.oh, g.ow, g.sh, g.sw, g.ph, g.pw, g.dh, g.dw, g.groups];
    for i := 0 to |values|
      invariant forall j :: 0 <= j < i ==> values[j] < 0x8000_0000
    {
      if values[i] >= 0x8000_0000 {
        assert values[i] in values;
        return false;
      }
    }
    if g.n == 0 || g.ci == 0 || g.h == 0 || g.w == 0 || g.co == 0 || g.kh == 0 || g.kw == 0 || g.oh == 0 || g.ow == 0
       || g.sh == 0 || g.sw == 0 || g.dh == 0 || g.dw == 0 || g.groups == 0 {
      return false;
    }
    if g.ci % g.groups != 0 || g.co % g.groups != 0 {
      return false;
    }
    return g.oh == (g.h + 2 * g.ph - g.dh * (g.kh - 1) - 1) / g.sh + 1
           && g.ow == (g.w + 2 * g.pw - g.dw * (g.kw - 1) - 1) / g.sw + 1;
  }

  /** The groups take all input and output channels, and K counts the taps of one group. */
  lemma GroupsCover(g: Geometry)
    requires g.Valid()
    ensures g.groups * g.GroupInputs() == g.ci && g.groups * g.GroupOutputs() == g.co
    ensures g.groups * g.K() == g.ci * (g.kh * g.kw)
  {
    DivIdentity(g.ci, g.groups);
    DivIdentity(g.co, g.groups);
    var inputs, plane := g.GroupInputs(), g.kh * g.kw;
    assert g.K() == inputs * plane;
    assert g.groups * (inputs * plane) == (g.groups * inputs) * plane;
  }

  // ----- taps -----

  function TapRow(g: Geometry, y: nat, kr: nat): int { y * g.sh - g.ph + kr * g.dh }

  function TapColumn(g: Geometry, x: nat, kc: nat): int { x * g.sw - g.pw + kc * g.dw }

  /** One axis of the output-size equation: taps stay in the padded range, and one more output would not. */
  lemma PaddedRange(size: nat, pad: nat, dilation: nat, kernel: nat, stride: nat, outputs: nat, y: nat, kr: nat)
    requires stride > 0 && kernel > 0 && outputs > 0 && y < outputs && kr < kernel
    requires outputs == (size + 2 * pad - dilation * (kernel - 1) - 1) / stride + 1
    ensures 0 - pad <= y * stride - pad + kr * dilation < size + pad
    ensures outputs * stride - pad + (kernel - 1) * dilation >= size + pad
  {
    var span := size + 2 * pad - dilation * (kernel - 1) - 1;
    DivIdentity(span, stride);
    MulNonnegative(outputs - 1 - y, stride);
    MulNonnegative(kernel - 1 - kr, dilation);
    MulNonnegative(kr, dilation);
    MulNonnegative(y, stride);
    var p, q := y * stride, kr * dilation;
    assert (outputs - 1 - y) * stride == (outputs - 1) * stride - p;
    assert (kernel - 1 - kr) * dilation == dilation * (kernel - 1) - q;
    assert outputs * stride == (outputs - 1) * stride + stride;
  }

  /** Every tap of every output lies in the padded image. */
  lemma TapsInPaddedImage(g: Geometry, y: nat, x: nat, kr: nat, kc: nat)
    requires g.Valid() && y < g.oh && x < g.ow && kr < g.kh && kc < g.kw
    ensures 0 - g.ph <= TapRow(g, y, kr) < g.h + g.ph
    ensures 0 - g.pw <= TapColumn(g, x, kc) < g.w + g.pw
  {
    PaddedRange(g.h, g.ph, g.dh, g.kh, g.sh, g.oh, y, kr);
    PaddedRange(g.w, g.pw, g.dw, g.kw, g.sw, g.ow, x, kc);
  }

  function InputIndex(g: Geometry, b: nat, channel: nat, iy: int, ix: int): int {
    ((b * g.ci + channel) * g.h + iy) * g.w + ix
  }

  lemma InputInRange(g: Geometry, b: nat, channel: nat, iy: nat, ix: nat)
    requires b < g.n && channel < g.ci && iy < g.h && ix < g.w
    ensures 0 <= InputIndex(g, b, channel, iy, ix) < g.n * g.ci * g.h * g.w
  {
    FlatIndex(b, channel, g.n, g.ci);
    FlatIndex(b * g.ci + channel, iy, g.n * g.ci, g.h);
    FlatIndex((b * g.ci + channel) * g.h + iy, ix, g.n * g.ci * g.h, g.w);
  }

  /** The operands of a convolution: an input image and what padding contributes. */
  datatype Source<T> = Source(g: Geometry, x: seq<T>, zero: T) {
    ghost predicate Valid() { g.Valid() && |x| == g.n * g.ci * g.h * g.w }

    /** One operand of one output. */
    function Tap(b: nat, channel: nat, iy: int, ix: int): T
      requires Valid() && b < g.n && channel < g.ci
    {
      if 0 <= iy < g.h && 0 <= ix < g.w then
        InputInRange(g, b, channel, iy, ix);
        x[InputIndex(g, b, channel, iy, ix)]
      else zero
    }
  }

  /** A tap inside the image reads the input at its row-major offset; outside, padding contributes. */
  lemma TapOffset<T>(s: Source<T>, b: nat, channel: nat, iy: int, ix: int)
    requires s.Valid() && b < s.g.n && channel < s.g.ci
    ensures var g := s.g;
      if 0 <= iy < g.h && 0 <= ix < g.w then
        var shape: BlockedTensor.Shape, index: BlockedTensor.Index := [g.n, g.ci, g.h, g.w], [b, channel, iy, ix];
        && BlockedTensor.InShape(shape, index)
        && BlockedTensor.OffsetOf(shape, index) < |s.x|
        && s.Tap(b, channel, iy, ix) == s.x[BlockedTensor.OffsetOf(shape, index)]
      else s.Tap(b, channel, iy, ix) == s.zero
  {
    var g := s.g;
    if 0 <= iy < g.h && 0 <= ix < g.w {
      BlockedTensor.OffsetOfFour(g.n, g.ci, g.h, g.w, b, channel, iy, ix);
      InputInRange(g, b, channel, iy, ix);
    }
  }

  lemma GroupChannel(g: Geometry, group: nat, channel: nat)
    requires g.Valid() && group < g.groups && channel < g.GroupInputs()
    ensures 0 <= group * g.GroupInputs() + channel < g.ci
  {
    DivIdentity(g.ci, g.groups);
    FlatIndex(group, channel, g.groups, g.GroupInputs());
  }

  // ----- the operands of one output, in tap order -----

  datatype Output = Output(b: nat, group: nat, y: nat, x: nat) {
    predicate In(g: Geometry) { b < g.n && group < g.groups && y < g.oh && x < g.ow }
  }

  /** The first `count` taps of one kernel row. */
  function KernelRow<T>(s: Source<T>, o: Output, channel: nat, kr: nat, count: nat): seq<T>
    requires s.Valid() && o.In(s.g) && channel < s.g.GroupInputs()
  {
    if count == 0 then []
    else
      GroupChannel(s.g, o.group, channel);
      KernelRow(s, o, channel, kr, count - 1)
      + [s.Tap(o.b, o.group * s.g.GroupInputs() + channel, TapRow(s.g, o.y, kr), TapColumn(s.g, o.x, count - 1))]
  }

  /** The first `rows` kernel rows of one input channel. */
  function Plane<T>(s: Source<T>, o: Output, channel: nat, rows: nat): seq<T>
    requires s.Valid() && o.In(s.g) && channel < s.g.GroupInputs()
  {
    if rows == 0 then [] else Plane(s, o, channel, rows - 1) + KernelRow(s, o, channel, rows - 1, s.g.kw)
  }

  /** The taps over the first `channels` input channels of the group. */
  function Taps<T>(s: Source<T>, o: Output, channels: nat): seq<T>
    requires s.Valid() && o.In(s.g) && channels <= s.g.GroupInputs()
  {
    if channels == 0 then [] else Taps(s, o, channels - 1) + Plane(s, o, channels - 1, s.g.kh)
  }

  // ----- one more tap, one more row, one more plane -----

  lemma KernelRowStart<T>(s: Source<T>, o: Output, ic: nat, kr: nat, before: seq<T>)
    requires s.Valid() && o.In(s.g) && ic < s.g.GroupInputs()
    ensures KernelRow(s, o, ic, kr, 0) == [] && before + KernelRow(s, o, ic, kr, 0) == before
  {
  }

  lemma KernelRowStep<T>(s: Source<T>, o: Output, ic: nat, kr: nat, kc: nat, before: seq<T>)
    requires s.Valid() && o.In(s.g) && ic < s.g.GroupInputs()
    ensures 0 <= o.group * s.g.GroupInputs() + ic < s.g.ci
    ensures |KernelRow(s, o, ic, kr, kc + 1)| == |KernelRow(s, o, ic, kr, kc)| + 1
    ensures before + KernelRow(s, o, ic, kr, kc + 1)
         == before + KernelRow(s, o, ic, kr, kc)
            + [s.Tap(o.b, o.group * s.g.GroupInputs() + ic, TapRow(s.g, o.y, kr), TapColumn(s.g, o.x, kc))]
  {
    GroupChannel(s.g, o.group, ic);
    hide Source.Tap, TapRow, TapColumn;
  }

  lemma NoRows<T>(s: Source<T>, o: Output, ic: nat, before: seq<T>)
    requires s.Valid() && o.In(s.g) && ic < s.g.GroupInputs()
    ensures Plane(s, o, ic, 0) == [] && before + Plane(s, o, ic, 0) == before
  {
  }

  lemma PlaneStep<T>(s: Source<T>, o: Output, ic: nat, kr: nat, before: seq<T>)
    requires s.Valid() && o.In(s.g) && ic < s.g.GroupInputs()
    ensures before + Plane(s, o, ic, kr + 1) == before + Plane(s, o, ic, kr) + KernelRow(s, o, ic, kr, s.g.kw)
    ensures |Plane(s, o, ic, kr + 1)| == |Plane(s, o, ic, kr)| + |KernelRow(s, o, ic, kr, s.g.kw)|
  {
    hide KernelRow;
  }

  lemma TapsStep<T>(s: Source<T>, o: Output, channel: nat)
    requires s.Valid() && o.In(s.g) && channel < s.g.GroupInputs()
    ensures Taps(s, o, 0) == [] && Taps(s, o, channel + 1) == Taps(s, o, channel) + Plane(s, o, channel, s.g.kh)
  {
    hide Plane;
  }

  lemma {:induction false} KernelRowAt<T>(s: Source<T>, o: Output, channel: nat, kr: nat, count: nat, kc: nat)
    requires s.Valid() && o.In(s.g) && channel < s.g.GroupInputs()
    ensures |KernelRow(s, o, channel, kr, count)| == count
    ensures kc < count ==>
      && 0 <= o.group * s.g.GroupInputs() + channel < s.g.ci
      && KernelRow(s, o, channel, kr, count)[kc]
         == s.Tap(o.b, o.group * s.g.GroupInputs() + channel, TapRow(s.g, o.y, kr), TapColumn(s.g, o.x, kc))
  {
    if count > 0 {
      hide Source.Tap, TapRow, TapColumn;
      GroupChannel(s.g, o.group, channel);
      KernelRowAt(s, o, channel, kr, count - 1, kc);
    }
  }

  lemma {:induction false} PlaneAt<T>(s: Source<T>, o: Output, channel: nat, rows: nat, kr: nat, kc: nat)
    requires s.Valid() && o.In(s.g) && channel < s.g.GroupInputs()
    ensures |Plane(s, o, channel, rows)| == rows * s.g.kw
    ensures kr < rows && kc < s.g.kw ==>
      && 0 <= kr * s.g.kw + kc < rows * s.g.kw && kc < |KernelRow(s, o, channel, kr, s.g.kw)|
      && Plane(s, o, channel, rows)[kr * s.g.kw + kc] == KernelRow(s, o, channel, kr, s.g.kw)[kc]
  {
    if rows > 0 {
      KernelRowAt(s, o, channel, rows - 1, s.g.kw, kc);
      hide KernelRow, Geometry.Valid;
      PlaneAt(s, o, channel, rows - 1, kr, kc);
      assert (rows - 1) * s.g.kw + s.g.kw == rows * s.g.kw;
      if kr < rows && kc < s.g.kw {
        FlatIndex(kr, kc, rows, s.g.kw);
        if kr < rows - 1 {
          FlatIndex(kr, kc, rows - 1, s.g.kw);
        }
      }
    }
  }

  lemma {:induction false} TapsAt<T>(s: Source<T>, o: Output, channels: nat, channel: nat, j: nat)
    requires s.Valid() && o.In(s.g) && channels <= s.g.GroupInputs()
    ensures |Taps(s, o, channels)| == channels * (s.g.kh * s.g.kw)
    ensures channel < channels && j < s.g.kh * s.g.kw ==>
      && 0 <= channel * (s.g.kh * s.g.kw) + j < channels * (s.g.kh * s.g.kw)
      && j < |Plane(s, o, channel, s.g.kh)|
      && Taps(s, o, channels)[channel * (s.g.kh * s.g.kw) + j] == Plane(s, o, channel, s.g.kh)[j]
  {
    if channels > 0 {
      PlaneAt(s, o, channels - 1, s.g.kh, 0, 0);
      hide Plane, Geometry.Valid;
      TapsAt(s, o, channels - 1, channel, j);
      var plane := s.g.kh * s.g.kw;
      assert (channels - 1) * plane + plane == channels * plane;
      if channel < channels && j < plane {
        FlatIndex(channel, j, channels, plane);
        if channel < channels - 1 {
          FlatIndex(channel, j, channels - 1, plane);
        }
      }
    }
  }

  /** Every tap of direct convolution, by input channel, kernel row and kernel column. */
  lemma TapAt<T>(s: Source<T>, o: Output, channel: nat, kr: nat, kc: nat)
    requires s.Valid() && o.In(s.g) && channel < s.g.GroupInputs() && kr < s.g.kh && kc < s.g.kw
    ensures |Taps(s, o, s.g.GroupInputs())| == s.g.K()
    ensures 0 <= o.group * s.g.GroupInputs() + channel < s.g.ci
    ensures 0 <= (channel * s.g.kh + kr) * s.g.kw + kc < s.g.K()
    ensures Taps(s, o, s.g.GroupInputs())[(channel * s.g.kh + kr) * s.g.kw + kc]
         == s.Tap(o.b, o.group * s.g.GroupInputs() + channel, TapRow(s.g, o.y, kr), TapColumn(s.g, o.x, kc))
  {
    var plane := s.g.kh * s.g.kw;
    FlatIndex(kr, kc, s.g.kh, s.g.kw);
    GroupChannel(s.g, o.group, channel);
    TapsAt(s, o, s.g.GroupInputs(), channel, kr * s.g.kw + kc);
    PlaneAt(s, o, channel, s.g.kh, kr, kc);
    KernelRowAt(s, o, channel, kr, s.g.kw, kc);
    hide Taps, Plane, KernelRow, Source.Tap, TapRow, TapColumn;
    TapPosition(channel, kr, kc, s.g.kh, s.g.kw, s.g.GroupInputs());
  }

  lemma TapPosition(channel: nat, kr: nat, kc: nat, kh: nat, kw: nat, inputs: nat)
    ensures (channel * kh + kr) * kw + kc == channel * (kh * kw) + (kr * kw + kc)
    ensures inputs * kh * kw == inputs * (kh * kw)
  {
  }

  // ----- rows: image, output row and output column together -----

  function RowIndex(g: Geometry, b: nat, y: nat, x: nat): int { b * (g.oh * g.ow) + (y * g.ow + x) }

  function OutputOf(g: Geometry, group: nat, row: nat): Output
    requires g.Positive()
  {
    PositionsPositive(g);
    var position := row % (g.oh * g.ow);
    RowColumnNonnegative(row, g.oh * g.ow);
    RowColumnNonnegative(position, g.ow);
    Output(row / (g.oh * g.ow), group, position / g.ow, position % g.ow)
  }

  lemma RowColumnNonnegative(o: nat, k: Positive)
    ensures o / k >= 0 && o % k >= 0
  {
    DivNonnegative(o, k);
  }

  lemma PositionsPositive(g: Geometry)
    requires g.Positive()
    ensures g.oh * g.ow > 0
  {
    MulPositive(g.oh, g.ow);
  }

  lemma OutputOfRow(g: Geometry, group: nat, b: nat, y: nat, x: nat)
    requires g.Positive() && b < g.n && y < g.oh && x < g.ow
    ensures 0 <= RowIndex(g, b, y, x) < g.n * (g.oh * g.ow)
    ensures OutputOf(g, group, RowIndex(g, b, y, x)) == Output(b, group, y, x)
  {
    FlatIndex(y, x, g.oh, g.ow);
    FlatIndex(b, y * g.ow + x, g.n, g.oh * g.ow);
  }

  lemma OutputInRange(g: Geometry, group: nat, row: nat)
    requires g.Positive() && group < g.groups && row < g.n * (g.oh * g.ow)
    ensures OutputOf(g, group, row).In(g)
  {
    PositionsPositive(g);
    RowColumn(row, g.n, g.oh * g.ow);
    RowColumn(row % (g.oh * g.ow), g.oh, g.ow);
  }

  /** The patches of the first `rows` outputs of a group. */
  function Patches<T>(s: Source<T>, group: nat, rows: nat): seq<T>
    requires s.Valid() && group < s.g.groups && rows <= s.g.n * (s.g.oh * s.g.ow)
  {
    if rows == 0 then []
    else
      OutputInRange(s.g, group, rows - 1);
      Patches(s, group, rows - 1) + Taps(s, OutputOf(s.g, group, rows - 1), s.g.GroupInputs())
  }

  lemma {:induction false} PatchAt<T>(s: Source<T>, group: nat, rows: nat, row: nat)
    requires s.Valid() && group < s.g.groups && rows <= s.g.n * (s.g.oh * s.g.ow)
    ensures |Patches(s, group, rows)| == rows * s.g.K()
    ensures row < rows ==>
      && OutputOf(s.g, group, row).In(s.g)
      && Block(Patches(s, group, rows), row, rows, s.g.K()) == Taps(s, OutputOf(s.g, group, row), s.g.GroupInputs())
  {
    if rows > 0 {
      OutputInRange(s.g, group, rows - 1);
      var taps := Taps(s, OutputOf(s.g, group, rows - 1), s.g.GroupInputs());
      assert |taps| == s.g.K() by {
        TapsAt(s, OutputOf(s.g, group, rows - 1), s.g.GroupInputs(), 0, 0);
        TapPosition(0, 0, 0, s.g.kh, s.g.kw, s.g.GroupInputs());
      }
      hide Taps, OutputOf, Geometry.Valid, Output.In, Geometry.K;
      PatchAt(s, group, rows - 1, row);
      AppendBlock(Patches(s, group, rows - 1), taps, rows - 1, s.g.K(), if row < rows then row else 0);
    }
  }

  /** The numbering of rows, loop by loop. */
  lemma RowSteps(g: Geometry, b: nat, y: nat, x: nat)
    ensures RowIndex(g, 0, 0, 0) == 0 && RowIndex(g, g.n, 0, 0) == g.n * (g.oh * g.ow)
    ensures RowIndex(g, b, y, x + 1) == RowIndex(g, b, y, x) + 1
    ensures RowIndex(g, b, y, g.ow) == RowIndex(g, b, y + 1, 0)
    ensures RowIndex(g, b, g.oh, 0) == RowIndex(g, b + 1, 0, 0)
  {
    assert (y + 1) * g.ow == y * g.ow + g.ow;
    assert (b + 1) * (g.oh * g.ow) == b * (g.oh * g.ow) + g.oh * g.ow;
  }

  lemma PatchesStep<T>(s: Source<T>, group: nat, rows: nat)
    requires s.Valid() && group < s.g.groups && rows < s.g.n * (s.g.oh * s.g.ow)
    ensures OutputOf(s.g, group, rows).In(s.g)
    ensures Patches(s, group, rows + 1)
         == Patches(s, group, rows) + Taps(s, OutputOf(s.g, group, rows), s.g.GroupInputs())
  {
    OutputInRange(s.g, group, rows);
  }

  /** The patch loops of one group. */
  method BuildPatches<T>(s: Source<T>, group: nat) returns (patches: seq<T>)
    requires s.Valid() && group < s.g.groups
    ensures patches == Patches(s, group, s.g.n * (s.g.oh * s.g.ow))
  {
    var g := s.g;
    RowSteps(g, 0, 0, 0);
    MulNonnegative(g.oh, g.ow);
    MulNonnegative(g.n, g.oh * g.ow);
    patches := [];
    hide RowIndex, Patches, Taps, OutputOf;
    assert patches == Patches(s, group, 0) by { EmptyPatches(s, group); }
    for b := 0 to g.n
      invariant 0 <= RowIndex(g, b, 0, 0) <= g.n * (g.oh * g.ow) && patches == Patches(s, group, RowIndex(g, b, 0, 0))
    {
      for y := 0 to g.oh
        invariant 0 <= RowIndex(g, b, y, 0) <= g.n * (g.oh * g.ow) && patches == Patches(s, group, RowIndex(g, b, y, 0))
      {
        for x := 0 to g.ow
          invariant 0 <= RowIndex(g, b, y, x) <= g.n * (g.oh * g.ow)
          invariant patches == Patches(s, group, RowIndex(g, b, y, x))
        {
          OutputOfRow(g, group, b, y, x);
          PatchesStep(s, group, RowIndex(g, b, y, x));
          RowSteps(g, b, y, x);
          var taps := BuildTaps(s, Output(b, group, y, x));
          patches := patches + taps;
        }
        RowSteps(g, b, y, 0);
      }
      RowSteps(g, b, 0, 0);
    }
  }

  lemma EmptyPatches<T>(s: Source<T>, group: nat)
    requires s.Valid() && group < s.g.groups && 0 <= s.g.n * (s.g.oh * s.g.ow)
    ensures Patches(s, group, 0) == []
  {
  }

  /** Stride, padding and dilation place a tap. */
  lemma TapAddress(g: Geometry, o: Output, kr: nat, kc: nat, iy: int, ix: int)
    requires iy == o.y * g.sh - g.ph + kr * g.dh && ix == o.x * g.sw - g.pw + kc * g.dw
    ensures TapRow(g, o.y, kr) == iy && TapColumn(g, o.x, kc) == ix
  {
  }

  /** The three inner loops: one patch. */
  method BuildTaps<T>(s: Source<T>, o: Output) returns (taps: seq<T>)
    requires s.Valid() && o.In(s.g)
    ensures taps == Taps(s, o, s.g.GroupInputs())
  {
    var g := s.g;
    taps := [];
    assert Taps(s, o, 0) == [];
    hide KernelRow, Plane, Taps, Source.Tap, TapRow, TapColumn;
    for channel := 0 to g.GroupInputs()
      invariant taps == Taps(s, o, channel)
    {
      ghost var before := taps;
      NoRows(s, o, channel, before);
      for kr := 0 to g.kh
        invariant taps == before + Plane(s, o, channel, kr)
      {
        ghost var above := taps;
        KernelRowStart(s, o, channel, kr, above);
        for kc := 0 to g.kw
          invariant taps == above + KernelRow(s, o, channel, kr, kc)
        {
          KernelRowStep(s, o, channel, kr, kc, above);
          var iy, ix := o.y * g.sh - g.ph + kr * g.dh, o.x * g.sw - g.pw + kc * g.dw;
          TapAddress(g, o, kr, kc, iy, ix);
          taps := taps + [s.Tap(o.b, o.group * g.GroupInputs() + channel, iy, ix)];
        }
        PlaneStep(s, o, channel, kr, before);
      }
      TapsStep(s, o, channel);
    }
  }

  // ----- output states -----

  /** (b*co + channel)*oh*ow + position with b, position = divmod(row, oh*ow) */
  function StateIndex(g: Geometry, row: nat, channel: nat): int
    requires g.Positive()
  {
    PositionsPositive(g);
    (row / (g.oh * g.ow) * g.co + channel) * (g.oh * g.ow) + row % (g.oh * g.ow)
  }

  function ChannelOf(g: Geometry, o: nat): int
    requires g.Positive()
  {
    PositionsPositive(g);
    o / (g.oh * g.ow) % g.co
  }

  function RowOf(g: Geometry, o: nat): int
    requires g.Positive()
  {
    PositionsPositive(g);
    o / (g.oh * g.ow) / g.co * (g.oh * g.ow) + o % (g.oh * g.ow)
  }

  /** The scatter addresses every pair of a row and a channel by its own state. */
  lemma StateAddress(g: Geometry, row: nat, channel: nat)
    requires g.Positive() && row < g.n * (g.oh * g.ow) && channel < g.co
    ensures 0 <= StateIndex(g, row, channel) < g.n * g.co * (g.oh * g.ow)
    ensures RowOf(g, StateIndex(g, row, channel)) == row && ChannelOf(g, StateIndex(g, row, channel)) == channel
  {
    var positions := g.oh * g.ow;
    PositionsPositive(g);
    RowColumn(row, g.n, positions);
    FlatIndex(row / positions, channel, g.n, g.co);
    FlatIndex(row / positions * g.co + channel, row % positions, g.n * g.co, positions);
  }

  /** The state of an output is its row-major offset in the output image. */
  lemma StateRowMajor(g: Geometry, b: nat, channel: nat, y: nat, x: nat)
    requires g.Positive() && BlockedTensor.InShape([g.n, g.co, g.oh, g.ow], [b, channel, y, x])
    ensures 0 <= RowIndex(g, b, y, x) && OutputOf(g, 0, RowIndex(g, b, y, x)) == Output(b, 0, y, x)
    ensures StateIndex(g, RowIndex(g, b, y, x), channel)
         == BlockedTensor.OffsetOf([g.n, g.co, g.oh, g.ow], [b, channel, y, x])
  {
    var index: BlockedTensor.Index, shape: BlockedTensor.Shape := [b, channel, y, x], [g.n, g.co, g.oh, g.ow];
    assert index[0] < shape[0] && index[1] < shape[1] && index[2] < shape[2] && index[3] < shape[3];
    OutputOfRow(g, 0, b, y, x);
    PositionsPositive(g);
    FlatIndex(y, x, g.oh, g.ow);
    FlatIndex(b, y * g.ow + x, g.n, g.oh * g.ow);
    BlockedTensor.OffsetOfFour(g.n, g.co, g.oh, g.ow, b, channel, y, x);
    MulNonnegative(b, g.co);
    PositionOffset(b * g.co + channel, y, x, g.oh, g.ow);
  }

  lemma PositionOffset(plane: nat, y: nat, x: nat, height: nat, width: nat)
    ensures plane * (height * width) + (y * width + x) == (plane * height + y) * width + x
  {
  }

  /** And every state is addressed by some pair. */
  lemma StateAddressed(g: Geometry, o: nat)
    requires g.Positive() && o < g.n * g.co * (g.oh * g.ow)
    ensures 0 <= RowOf(g, o) < g.n * (g.oh * g.ow) && 0 <= ChannelOf(g, o) < g.co
    ensures StateIndex(g, RowOf(g, o), ChannelOf(g, o)) == o
  {
    PositionsPositive(g);
    Unravelled(g.n, g.co, g.oh * g.ow, o);
  }

  /** An offset of an image-by-channel-by-position layout, taken apart and put together with the channel set aside. */
  lemma Unravelled(n: nat, channels: Positive, positions: Positive, o: nat)
    requires o < n * channels * positions
    ensures 0 <= o / positions < n * channels && 0 <= o / positions % channels < channels
    ensures 0 <= o / positions / channels < n && 0 <= o % positions < positions
    ensures var row := o / positions / channels * positions + o % positions;
      && 0 <= row < n * positions
      && (row / positions * channels + o / positions % channels) * positions + row % positions == o
  {
    RowColumn(o, n * channels, positions);
    RowColumn(o / positions, n, channels);
    FlatIndex(o / positions / channels, o % positions, n, positions);
  }

  /** The group of an output channel, and its place in the group. */
  lemma ChannelGroup(g: Geometry, group: nat, channel: nat)
    requires g.Valid() && group < g.groups && channel < g.GroupOutputs()
    ensures 0 <= group * g.GroupOutputs() + channel < g.co
    ensures (group * g.GroupOutputs() + channel) / g.GroupOutputs() == group
    ensures (group * g.GroupOutputs() + channel) % g.GroupOutputs() == channel
  {
    DivIdentity(g.co, g.groups);
    FlatIndex(group, channel, g.groups, g.GroupOutputs());
  }

  lemma GroupOutputsPositive(g: Geometry)
    requires g.Valid()
    ensures g.GroupOutputs() > 0 && g.groups * g.GroupOutputs() == g.co
  {
    DivIdentity(g.co, g.groups);
    DivNonnegative(g.co, g.groups);
  }

  /** What a matrix product of a group leaves at the states of that group. */
  ghost predicate GroupScattered(g: Geometry, group: nat, result: seq<nat>, before: seq<nat>, after: seq<nat>)
    requires g.Valid() && group < g.groups
    requires |before| == |after| == g.n * g.co * (g.oh * g.ow) && |result| == g.n * (g.oh * g.ow) * g.GroupOutputs()
  {
    forall o :: 0 <= o < |after| ==> after[o] == ScatteredState(g, group, result, before, o)
  }

  ghost function ScatteredState(g: Geometry, group: nat, result: seq<nat>, before: seq<nat>, o: nat): nat
    requires g.Valid() && group < g.groups && o < |before| == g.n * g.co * (g.oh * g.ow)
    requires |result| == g.n * (g.oh * g.ow) * g.GroupOutputs()
  {
    StateAddressed(g, o);
    GroupOutputsPositive(g);
    var outs := g.GroupOutputs();
    RowColumn(ChannelOf(g, o), g.groups, outs);
    FlatIndex(RowOf(g, o), ChannelOf(g, o) % outs, g.n * (g.oh * g.ow), outs);
    if ChannelOf(g, o) / outs == group then result[RowOf(g, o) * outs + ChannelOf(g, o) % outs] else before[o]
  }

  lemma ScatterPlace(g: Geometry, group: nat, row: nat, channel: nat, o: nat)
    requires g.Valid() && group < g.groups && channel < g.GroupOutputs() && o < g.n * g.co * (g.oh * g.ow)
    requires RowOf(g, o) == row
    requires ChannelOf(g, o) % g.GroupOutputs() == channel && ChannelOf(g, o) / g.GroupOutputs() == group
    ensures o == StateIndex(g, row, group * g.GroupOutputs() + channel)
  {
    StateAddressed(g, o);
    GroupOutputsPositive(g);
    DivIdentity(ChannelOf(g, o), g.GroupOutputs());
  }

  /** The states written before the given row and channel of the scatter loops. */
  ghost predicate Reached(g: Geometry, o: nat, row: nat, channel: nat)
    requires g.Valid()
  {
    GroupOutputsPositive(g);
    RowOf(g, o) < row || (RowOf(g, o) == row && ChannelOf(g, o) % g.GroupOutputs() < channel)
  }

  /** One assignment of the scatter loops reaches exactly its own state of the group. */
  lemma ScatterStep(g: Geometry, group: nat, result: seq<nat>, before: seq<nat>, current: seq<nat>, row: nat,
                    channel: nat)
    requires g.Valid() && group < g.groups && row < g.n * (g.oh * g.ow) && channel < g.GroupOutputs()
    requires |before| == |current| == g.n * g.co * (g.oh * g.ow) && |result| == g.n * (g.oh * g.ow) * g.GroupOutputs()
    requires forall o :: 0 <= o < |current| ==>
      current[o] == if Reached(g, o, row, channel) then ScatteredState(g, group, result, before, o) else before[o]
    ensures 0 <= row * g.GroupOutputs() + channel < |result|
    ensures 0 <= group * g.GroupOutputs() + channel < g.co
    ensures 0 <= StateIndex(g, row, group * g.GroupOutputs() + channel) < |current|
    ensures var next := current[StateIndex(g, row, group * g.GroupOutputs() + channel)
                                := result[row * g.GroupOutputs() + channel]];
      forall o :: 0 <= o < |next| ==>
        next[o] == if Reached(g, o, row, channel + 1) then ScatteredState(g, group, result, before, o) else before[o]
  {
    var outs := g.GroupOutputs();
    ChannelGroup(g, group, channel);
    FlatIndex(row, channel, g.n * (g.oh * g.ow), outs);
    var place := StateIndex(g, row, group * outs + channel);
    StateAddress(g, row, group * outs + channel);
    hide StateIndex, RowOf, ChannelOf, Geometry.Valid;
    forall o | 0 <= o < |current| && o != place
      ensures Reached(g, o, row, channel + 1) && !Reached(g, o, row, channel) ==>
        ScatteredState(g, group, result, before, o) == before[o]
    {
      if RowOf(g, o) == row && ChannelOf(g, o) % outs == channel && ChannelOf(g, o) / outs == group {
        ScatterPlace(g, group, row, channel, o);
      }
    }
  }

  /** The scatter loops of one group. */
  method Scatter(states: array<nat>, g: Geometry, group: nat, result: seq<nat>)
    requires g.Valid() && group < g.groups && states.Length == g.n * g.co * (g.oh * g.ow)
    requires |result| == g.n * (g.oh * g.ow) * g.GroupOutputs()
    modifies states
    ensures GroupScattered(g, group, result, old(states[..]), states[..])
  {
    var outs := g.GroupOutputs();
    GroupOutputsPositive(g);
    PositionsPositive(g);
    MulNonnegative(g.n, g.oh * g.ow);
    ghost var before := states[..];
    forall o: nat | o < |before|
      ensures !Reached(g, o, 0, 0)
    {
      StateAddressed(g, o);
    }
    for row := 0 to g.n * (g.oh * g.ow)
      invariant forall o :: 0 <= o < states.Length ==>
        states[o] == if Reached(g, o, row, 0) then ScatteredState(g, group, result, before, o) else before[o]
    {
      hide Reached, ScatteredState, StateIndex, Geometry.Valid;
      for channel := 0 to outs
        invariant forall o :: 0 <= o < states.Length ==>
          states[o] == if Reached(g, o, row, channel) then ScatteredState(g, group, result, before, o) else before[o]
      {
        ScatterStep(g, group, result, before, states[..], row, channel);
        states[StateIndex(g, row, group * outs + channel)] := result[row * outs + channel];
      }
      RowFinished(g, row);
    }
    AllReached(g);
  }

  lemma RowFinished(g: Geometry, row: nat)
    requires g.Valid()
    ensures forall o: nat :: Reached(g, o, row, g.GroupOutputs()) <==> Reached(g, o, row + 1, 0)
  {
    GroupOutputsPositive(g);
    hide RowOf, ChannelOf;
  }

  lemma AllReached(g: Geometry)
    requires g.Valid()
    ensures forall o: nat :: o < g.n * g.co * (g.oh * g.ow) ==> Reached(g, o, g.n * (g.oh * g.ow), 0)
  {
    forall o: nat | o < g.n * g.co * (g.oh * g.ow)
      ensures Reached(g, o, g.n * (g.oh * g.ow), 0)
    {
      StateAddressed(g, o);
    }
  }

  // ----- the whole convolution -----

  /** A kernel is a function of one row of operands and one row of weights. */
  type Kernel<!T> = (seq<T>, seq<T>) -> nat

  /** The output of a state. */
  function OutputAt(g: Geometry, o: nat): (output: Output)
    requires g.Valid() && o < g.n * g.co * (g.oh * g.ow)
    ensures output.In(g)
  {
    StateAddressed(g, o);
    GroupOutputsPositive(g);
    RowColumn(ChannelOf(g, o), g.groups, g.GroupOutputs());
    OutputInRange(g, ChannelOf(g, o) / g.GroupOutputs(), RowOf(g, o));
    OutputOf(g, ChannelOf(g, o) / g.GroupOutputs(), RowOf(g, o))
  }

  /** Direct grouped convolution: one reduction of an output's taps with its channel's weights. */
  function Direct<T>(s: Source<T>, ws: seq<T>, kernel: Kernel<T>, o: nat): nat
    requires s.Valid() && |ws| == s.g.co * s.g.K() && o < s.g.n * s.g.co * (s.g.oh * s.g.ow)
  {
    StateAddressed(s.g, o);
    kernel(Taps(s, OutputAt(s.g, o), s.g.GroupInputs()), Block(ws, ChannelOf(s.g, o), s.g.co, s.g.K()))
  }

  /** w[first*k:last*k] */
  function GroupWeights<T>(g: Geometry, ws: seq<T>, group: nat): (r: seq<T>)
    requires g.Valid() && group < g.groups && |ws| == g.co * g.K()
    ensures |r| == g.GroupOutputs() * g.K()
  {
    GroupOutputsPositive(g);
    BlockRange(group, g.groups, g.GroupOutputs());
    var first, last := group * g.GroupOutputs(), (group + 1) * g.GroupOutputs();
    MulNonnegative(first, g.K());
    MulNonnegative(g.co - last, g.K());
    assert (g.co - last) * g.K() == g.co * g.K() - last * g.K();
    assert last * g.K() == first * g.K() + g.GroupOutputs() * g.K();
    MulNonnegative(g.GroupOutputs(), g.K());
    ws[first * g.K()..last * g.K()]
  }

  lemma GroupWeightRow<T>(g: Geometry, ws: seq<T>, group: nat, channel: nat)
    requires g.Valid() && group < g.groups && |ws| == g.co * g.K() && channel < g.GroupOutputs()
    ensures 0 <= group * g.GroupOutputs() + channel < g.co
    ensures Block(GroupWeights(g, ws, group), channel, g.GroupOutputs(), g.K())
         == Block(ws, group * g.GroupOutputs() + channel, g.co, g.K())
  {
    ChannelGroup(g, group, channel);
    GroupOutputsPositive(g);
    BlockRange(group, g.groups, g.GroupOutputs());
    SubBlock(ws, group * g.GroupOutputs(), g.GroupOutputs(), g.co, g.K(), channel);
  }

  /** A block of a run of blocks is a block of the whole. */
  lemma SubBlock<T>(s: seq<T>, first: nat, count: nat, n: nat, k: nat, i: nat)
    requires |s| == n * k && first + count <= n && i < count
    ensures 0 <= first * k <= (first + count) * k <= |s| && (first + count) * k - first * k == count * k
    ensures Block(s[first * k..(first + count) * k], i, count, k) == Block(s, first + i, n, k)
  {
    BlockRange(i, count, k);
    BlockRange(first + i, n, k);
    MulNonnegative(first, k);
    MulNonnegative(n - first - count, k);
    assert (n - first - count) * k == n * k - (first + count) * k;
    assert (first + count) * k == first * k + count * k;
    assert (first + i) * k == first * k + i * k;
    SliceOfSlice(s, first * k, (first + count) * k, i * k, (i + 1) * k);
  }

  lemma SliceOfSlice<T>(s: seq<T>, a: nat, b: nat, c: nat, d: nat)
    requires a <= b <= |s| && c <= d <= b - a
    ensures s[a..b][c..d] == s[a + c..a + d]
  {
    var t, v := s[a..b], s[a + c..a + d];
    assert forall i :: c <= i < d ==> t[i] == s[a + i] == v[i - c];
  }

  /** The states of one group after its matrix product are those of direct convolution. */
  lemma GroupIsDirect<T(!new)>(s: Source<T>, ws: seq<T>, kernel: Kernel<T>, group: nat, patches: seq<T>,
                               result: seq<nat>,
                         before: seq<nat>, o: nat)
    requires s.Valid() && |ws| == s.g.co * s.g.K() && group < s.g.groups
    requires o < |before| == s.g.n * s.g.co * (s.g.oh * s.g.ow) && 0 <= s.g.n * (s.g.oh * s.g.ow)
    requires patches == Patches(s, group, s.g.n * (s.g.oh * s.g.ow)) && |patches| == s.g.n * (s.g.oh * s.g.ow) * s.g.K()
    requires s.g.GroupOutputs() > 0
    requires result == MatrixProduct.Product(kernel, patches, GroupWeights(s.g, ws, group), s.g.n * (s.g.oh * s.g.ow),
                                             s.g.GroupOutputs(), s.g.K())
    requires 0 <= ChannelOf(s.g, o) / s.g.GroupOutputs() == group
    ensures ScatteredState(s.g, group, result, before, o) == Direct(s, ws, kernel, o)
  {
    var g, outs, rows := s.g, s.g.GroupOutputs(), s.g.n * (s.g.oh * s.g.ow);
    StateAddressed(g, o);
    var row, channel := RowOf(g, o), ChannelOf(g, o) % outs;
    DivIdentity(ChannelOf(g, o), outs);
    FlatIndex(row, channel, rows, outs);
    PatchAt(s, group, rows, row);
    GroupWeightRow(g, ws, group, channel);
    hide Taps, Patches, OutputOf, RowOf, ChannelOf, StateIndex, GroupWeights;
  }

  /** The matrix product of a group takes dimensions below 2^31 only. */
  ghost predicate GemmDimensions(g: Geometry) {
    g.n * (g.oh * g.ow) < 0x8000_0000 && g.K() < 0x8000_0000
  }

  /** flex_conv2d by patches: every output state is the one direct grouped convolution gives it. */
  method FlexConv2d<T(!new)>(s: Source<T>, ws: seq<T>, kernel: Kernel<T>) returns (states: Result<seq<nat>>)
    ensures states.Success? <==> s.Valid() && |ws| == s.g.co * s.g.K() && GemmDimensions(s.g)
    ensures states.Success? ==>
      && |states.value| == s.g.n * s.g.co * (s.g.oh * s.g.ow)
      && forall o :: 0 <= o < |states.value| ==> states.value[o] == Direct(s, ws, kernel, o)
  {
    var g := s.g;
    var accepted := CheckGeometry(g);
    if !accepted || |s.x| != g.n * g.ci * g.h * g.w || |ws| != g.co * g.K() {
      return Failure("invalid native convolution geometry or payload");
    }
    if g.n * (g.oh * g.ow) >= 0x8000_0000 || g.K() >= 0x8000_0000 {
      return Failure("rational GEMM requires positive int32 dimensions");
    }
    PositionsPositive(g);
    MulNonnegative(g.n, g.oh * g.ow);
    MulNonnegative(g.n, g.co);
    MulNonnegative(g.n * g.co, g.oh * g.ow);
    GroupOutputsPositive(g);
    var rows, outs := g.n * (g.oh * g.ow), g.GroupOutputs();
    var out := new nat[g.n * g.co * (g.oh * g.ow)](_ => 0);
    for group := 0 to g.groups
      invariant forall o :: 0 <= o < out.Length && ChannelOf(g, o) / outs < group ==> out[o] == Direct(s, ws, kernel, o)
    {
      var patches := BuildPatches(s, group);
      assert |patches| == rows * g.K() by { PatchAt(s, group, rows, 0); }
      var result := MatrixProduct.Product(kernel, patches, GroupWeights(g, ws, group), rows, outs, g.K());
      ghost var before := out[..];
      Scatter(out, g, group, result);
      forall o | 0 <= o < out.Length && ChannelOf(g, o) / outs < group + 1
        ensures out[o] == Direct(s, ws, kernel, o)
      {
        assert out[o] == out[..][o] == ScatteredState(g, group, result, before, o);
        if ChannelOf(g, o) / outs == group {
          GroupIsDirect(s, ws, kernel, group, patches, result, before, o);
        }
      }
    }
    forall o: nat | o < out.Length
      ensures ChannelOf(g, o) / outs < g.groups
    {
      StateAddressed(g, o);
      RowColumn(ChannelOf(g, o), g.groups, outs);
    }
    return Success(out[..]);
  }
}
