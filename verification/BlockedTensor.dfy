/**
 Row-major tensor addressing and shared scales: every element is coded with the
 scale computed from the block that contains it.
 */
module BlockedTensor {
  import opened IntArithmetic
  import opened Results

  type Shape = seq<nat>

  type Index = seq<nat>

  ghost predicate Positives(shape: Shape) { forall d :: 0 <= d < |shape| ==> shape[d] > 0 }

  predicate InShape(shape: Shape, index: Index) {
    |index| == |shape| && forall d :: 0 <= d < |shape| ==> index[d] < shape[d]
  }

  function Size(shape: Shape): (n: nat)
  {
    if |shape| == 0 then 1
    else
      MulNonnegative(Size(shape[..|shape| - 1]), shape[|shape| - 1]);
      Size(shape[..|shape| - 1]) * shape[|shape| - 1]
  }

  // ----- offsets -----

  function OffsetOf(shape: Shape, index: Index): (n: nat)
    requires InShape(shape, index)
    ensures n < Size(shape)
  {
    if |shape| == 0 then 0
    else
      var k := |shape| - 1;
      FlatIndex(OffsetOf(shape[..k], index[..k]), index[k], Size(shape[..k]), shape[k]);
      OffsetOf(shape[..k], index[..k]) * shape[k] + index[k]
  }

  lemma SizeOfFour(n: nat, c: nat, h: nat, w: nat)
    ensures Size([n, c, h, w]) == n * c * h * w
  {
    assert [n, c, h, w][..3] == [n, c, h] && [n, c, h][..2] == [n, c] && [n, c][..1] == [n] && [n][..0] == [];
    assert Size([n]) == n;
    assert Size([n, c]) == n * c;
    assert Size([n, c, h]) == n * c * h;
  }

  /** Four dimensions: one after the other. */
  lemma OffsetOfFour(n: nat, c: nat, h: nat, w: nat, i: nat, j: nat, y: nat, x: nat)
    requires InShape([n, c, h, w], [i, j, y, x])
    ensures OffsetOf([n, c, h, w], [i, j, y, x]) == ((i * c + j) * h + y) * w + x
  {
    var shape: Shape, index: Index := [n, c, h, w], [i, j, y, x];
    assert shape[..3] == [n, c, h] && index[..3] == [i, j, y];
    assert [n, c, h][..2] == [n, c] && [i, j, y][..2] == [i, j];
    assert [n, c][..1] == [n] && [i, j][..1] == [i];
    assert [n][..0] == [] && [i][..0] == [];
    assert OffsetOf([n], [i]) == i;
    assert OffsetOf([n, c], [i, j]) == i * c + j;
    assert OffsetOf([n, c, h], [i, j, y]) == (i * c + j) * h + y;
  }

  /** offset: the loop over dimensions, refusing a wrong rank or a position outside. */
  method Offset(shape: Shape, index: seq<int>) returns (n: Result<nat>, ghost position: Index)
    ensures n.Success? <==> |index| == |shape| && forall d :: 0 <= d < |shape| ==> 0 <= index[d] < shape[d]
    ensures n.Success? ==>
      && |position| == |index| && (forall d :: 0 <= d < |index| ==> position[d] == index[d])
      && InShape(shape, position) && n.value == OffsetOf(shape, position)
  {
    position := [];
    if |shape| != |index| {
      return Failure("tensor index rank mismatch"), position;
    }
    var result: nat := 0;
    for d := 0 to |shape|
      invariant |position| == d && forall e :: 0 <= e < d ==> position[e] == index[e] && 0 <= index[e] < shape[e]
      invariant InShape(shape[..d], position) && result == OffsetOf(shape[..d], position)
    {
      if !(0 <= index[d] < shape[d]) {
        return Failure("tensor index outside shape"), position;
      }
      MulNonnegative(result, shape[d]);
      ghost var next: Index := position + [index[d]];
      assert shape[..d + 1][..d] == shape[..d] && next[..d] == position;
      result, position := result * shape[d] + index[d], next;
    }
    assert shape[..|shape|] == shape;
    n := Success(result);
  }

  /** The index at an offset. */
  function IndexAt(shape: Shape, n: nat): (index: Index)
    requires Positives(shape) && n < Size(shape)
    ensures InShape(shape, index)
  {
    if |shape| == 0 then []
    else
      var k := |shape| - 1;
      RowColumn(n, Size(shape[..k]), shape[k]);
      IndexAt(shape[..k], n / shape[k]) + [n % shape[k]]
  }

  lemma {:induction false} OffsetOfIndex(shape: Shape, n: nat)
    requires Positives(shape) && n < Size(shape)
    ensures OffsetOf(shape, IndexAt(shape, n)) == n
  {
    if |shape| > 0 {
      var k := |shape| - 1;
      RowColumn(n, Size(shape[..k]), shape[k]);
      OffsetOfIndex(shape[..k], n / shape[k]);
      assert IndexAt(shape, n)[..k] == IndexAt(shape[..k], n / shape[k]);
    }
  }

  lemma {:induction false} IndexOfOffset(shape: Shape, index: Index)
    requires Positives(shape) && InShape(shape, index)
    ensures IndexAt(shape, OffsetOf(shape, index)) == index
  {
    if |shape| > 0 {
      var k := |shape| - 1;
      FlatIndex(OffsetOf(shape[..k], index[..k]), index[k], Size(shape[..k]), shape[k]);
      IndexOfOffset(shape[..k], index[..k]);
      assert index == index[..k] + [index[k]];
    }
  }

  // ----- the order of indices -----

  function Extended(prefix: Index, count: nat): (r: seq<Index>)
    ensures |r| == count && forall i :: 0 <= i < count ==> r[i] == prefix + [i]
  {
    seq(count, i requires 0 <= i < count => prefix + [i])
  }

  function ExtendedAll(prefixes: seq<Index>, count: nat): seq<Index> {
    if |prefixes| == 0 then []
    else ExtendedAll(prefixes[..|prefixes| - 1], count) + Extended(prefixes[|prefixes| - 1], count)
  }

  /** indices: the last dimension runs fastest. */
  function Indices(shape: Shape): seq<Index> {
    if |shape| == 0 then [[]] else ExtendedAll(Indices(shape[..|shape| - 1]), shape[|shape| - 1])
  }

  lemma {:induction false} ExtendedAt(prefixes: seq<Index>, count: Positive, n: nat)
    ensures |ExtendedAll(prefixes, count)| == |prefixes| * count
    ensures n < |prefixes| * count ==>
      0 <= n / count < |prefixes| && ExtendedAll(prefixes, count)[n] == prefixes[n / count] + [n % count]
  {
    if |prefixes| > 0 {
      var k := |prefixes| - 1;
      ExtendedAt(prefixes[..k], count, n);
      LastRow(n, k, count);
      assert ExtendedAll(prefixes, count) == ExtendedAll(prefixes[..k], count) + Extended(prefixes[k], count);
    }
  }

  /** A position of k + 1 rows is in the first k or in the last one. */
  lemma LastRow(n: nat, k: nat, count: Positive)
    ensures (k + 1) * count == k * count + count
    ensures n < k * count ==> 0 <= n / count < k
    ensures k * count <= n < k * count + count ==> n / count == k && n % count == n - k * count
  {
    if n < k * count {
      RowColumn(n, k, count);
    } else if n < k * count + count {
      DivUnique(n, count, k, n - k * count);
    }
  }

  /** indices enumerates the tensor by offset. */
  lemma {:induction false} IndicesAt(shape: Shape)
    requires Positives(shape)
    ensures |Indices(shape)| == Size(shape)
    ensures forall n :: 0 <= n < Size(shape) ==> Indices(shape)[n] == IndexAt(shape, n)
  {
    if |shape| > 0 {
      var k := |shape| - 1;
      IndicesAt(shape[..k]);
      var prefixes := Indices(shape[..k]);
      ExtendedAt(prefixes, shape[k], 0);
      hide ExtendedAll;
      forall n | 0 <= n < Size(shape)
        ensures Indices(shape)[n] == IndexAt(shape, n)
      {
        ExtendedAt(prefixes, shape[k], n);
        RowColumn(n, Size(shape[..k]), shape[k]);
      }
    }
  }

  // ----- blocks -----

  /** The shape of the scales: blocks along the axis. */
  function ScaleShape(shape: Shape, axis: nat, block: Positive): (r: Shape)
    requires axis < |shape|
    ensures |r| == |shape|
  {
    shape[axis := CeilDiv(shape[axis], block)]
  }

  /** The block that contains an element. */
  function BlockOf(index: Index, axis: nat, block: Positive): (r: Index)
    requires axis < |index|
    ensures |r| == |index|
  {
    DivNonnegative(index[axis], block);
    index[axis := index[axis] / block]
  }

  lemma BlockInShape(shape: Shape, index: Index, axis: nat, block: Positive)
    requires InShape(shape, index) && axis < |shape|
    ensures InShape(ScaleShape(shape, axis, block), BlockOf(index, axis, block))
    ensures 0 <= index[axis] % block < block && index[axis] == index[axis] / block * block + index[axis] % block
  {
    var i, n := index[axis], shape[axis];
    DivIdentity(i, block);
    DivIdentity(n + block - 1, block);
    var q, c := i / block, (n + block - 1) / block;
    assert q * block <= i < n < (c + 1) * block - (block - 1) by { assert (c + 1) * block == c * block + block; }
    MulOrder(q, c, block, q * block, c * block);
  }

  lemma ScaleShapePositive(shape: Shape, axis: nat, block: Positive)
    requires Positives(shape) && axis < |shape|
    ensures Positives(ScaleShape(shape, axis, block))
  {
    var n := shape[axis];
    DivIdentity(n + block - 1, block);
    MulOrder((n + block - 1) / block, 0, block, (n + block - 1) / block * block, 0);
  }

  /** The positions of a block along the axis: start to min(start + block, length). */
  function BlockLength(shape: Shape, axis: nat, block: Positive, b: Index): nat
    requires axis < |shape| && InShape(ScaleShape(shape, axis, block), b)
  {
    BlockStart(shape, axis, block, b);
    var start := b[axis] * block;
    if start + block < shape[axis] then block else shape[axis] - start
  }

  lemma BlockStart(shape: Shape, axis: nat, block: Positive, b: Index)
    requires axis < |shape| && InShape(ScaleShape(shape, axis, block), b)
    ensures 0 <= b[axis] * block < shape[axis]
  {
    var n, c := shape[axis], CeilDiv(shape[axis], block);
    DivIdentity(n + block - 1, block);
    MulNonnegative(b[axis], block);
    MulOrder(b[axis], c - 1, block, b[axis] * block, (c - 1) * block);
    assert (c - 1) * block == c * block - block;
  }

  /** The address of the j-th element of a block. */
  function Address(shape: Shape, axis: nat, block: Positive, b: Index, j: nat): (address: Index)
    requires axis < |shape| && InShape(ScaleShape(shape, axis, block), b) && j < BlockLength(shape, axis, block, b)
    ensures InShape(shape, address)
  {
    BlockStart(shape, axis, block, b);
    b[axis := b[axis] * block + j]
  }

  /** Every element of a block belongs to that block and to no other, at its own place. */
  lemma BlockOwnsAddress(shape: Shape, axis: nat, block: Positive, b: Index, j: nat)
    requires axis < |shape| && InShape(ScaleShape(shape, axis, block), b) && j < BlockLength(shape, axis, block, b)
    ensures BlockOf(Address(shape, axis, block, b, j), axis, block) == b
    ensures Address(shape, axis, block, b, j)[axis] % block == j
  {
    BlockStart(shape, axis, block, b);
    DivUnique(b[axis] * block + j, block, b[axis], j);
  }

  /** Every element is an element of its block. */
  lemma AddressInBlock(shape: Shape, axis: nat, block: Positive, index: Index)
    requires axis < |shape| && InShape(shape, index)
    ensures InShape(ScaleShape(shape, axis, block), BlockOf(index, axis, block))
    ensures index[axis] % block < BlockLength(shape, axis, block, BlockOf(index, axis, block))
    ensures Address(shape, axis, block, BlockOf(index, axis, block), index[axis] % block) == index
  {
    BlockInShape(shape, index, axis, block);
  }

  // ----- shared quantization -----

  function BlockValues<T>(values: seq<T>, shape: Shape, axis: nat, block: Positive, b: Index): (r: seq<T>)
    requires |values| == Size(shape) && axis < |shape| && InShape(ScaleShape(shape, axis, block), b)
    ensures |r| == BlockLength(shape, axis, block, b)
    ensures forall j :: 0 <= j < |r| ==> r[j] == values[OffsetOf(shape, Address(shape, axis, block, b, j))]
  {
    seq(BlockLength(shape, axis, block, b), j requires 0 <= j < BlockLength(shape, axis, block, b) =>
      values[OffsetOf(shape, Address(shape, axis, block, b, j))])
  }

  /** The loops of quantize_shared: one scale for every block, in the order of the scale shape. */
  method BlockScales<T>(values: seq<T>, shape: Shape, axis: nat, block: Positive, mseScale: seq<T> -> real)
    returns (scales: seq<real>)
    requires Positives(shape) && |values| == Size(shape) && axis < |shape|
    ensures |scales| == Size(ScaleShape(shape, axis, block))
    ensures forall b :: InShape(ScaleShape(shape, axis, block), b) ==>
      scales[OffsetOf(ScaleShape(shape, axis, block), b)] == mseScale(BlockValues(values, shape, axis, block, b))
  {
    var scaleShape := ScaleShape(shape, axis, block);
    ScaleShapePositive(shape, axis, block);
    IndicesAt(scaleShape);
    var order := Indices(scaleShape);
    hide Indices, BlockValues, OffsetOf, ScaleShape, Address, BlockLength;
    scales := [];
    for n := 0 to |order|
      invariant |scales| == n
      invariant forall i :: 0 <= i < n ==>
        && InShape(scaleShape, order[i])
        && scales[i] == mseScale(BlockValues(values, shape, axis, block, order[i]))
    {
      var b := order[n];
      var members: seq<T> := [];
      BlockStart(shape, axis, block, b);
      for j := 0 to BlockLength(shape, axis, block, b)
        invariant members == BlockValues(values, shape, axis, block, b)[..j]
      {
        members := members + [values[OffsetOf(shape, Address(shape, axis, block, b, j))]];
      }
      assert members == BlockValues(values, shape, axis, block, b);
      scales := scales + [mseScale(members)];
    }
    forall b | InShape(scaleShape, b)
      ensures scales[OffsetOf(scaleShape, b)] == mseScale(BlockValues(values, shape, axis, block, b))
    {
      IndexOfOffset(scaleShape, b);
      assert order[OffsetOf(scaleShape, b)] == b;
    }
  }

  // ----- tensors -----

  datatype Scaling = PerTensor | PerAxis(axis: nat) | PerBlock(axis: nat, block: Positive)

  datatype Encoding = Encoding(scales: seq<real>, scaling: Scaling) {
    /** The shapes that validate_shape accepts. */
    ghost predicate Fits(shape: Shape) {
      |shape| > 0 && Positives(shape)
      && match scaling
         case PerTensor => |scales| == 1
         case PerAxis(axis) => axis < |shape| && |scales| == shape[axis]
         case PerBlock(axis, block) => axis < |shape| && |scales| == Size(ScaleShape(shape, axis, block))
    }

    /** scale_at */
    function ScaleAt(shape: Shape, index: Index): real
      requires Fits(shape) && InShape(shape, index)
    {
      match scaling
      case PerTensor => scales[0]
      case PerAxis(axis) => scales[index[axis]]
      case PerBlock(axis, block) =>
        BlockInShape(shape, index, axis, block);
        scales[OffsetOf(ScaleShape(shape, axis, block), BlockOf(index, axis, block))]
    }
  }

  /** Which elements share a scale: all of them, those of one position along the axis, those of one block. */
  lemma ScaleGranularity(e: Encoding, shape: Shape, index: Index, other: Index)
    requires e.Fits(shape) && InShape(shape, index) && InShape(shape, other)
    requires match e.scaling
             case PerTensor => true
             case PerAxis(axis) => index[axis] == other[axis]
             case PerBlock(axis, block) => BlockOf(index, axis, block) == BlockOf(other, axis, block)
    ensures e.ScaleAt(shape, index) == e.ScaleAt(shape, other)
    ensures match e.scaling
            case PerTensor => e.scales == [e.ScaleAt(shape, index)]
            case PerAxis(axis) => e.scales[index[axis]] == e.ScaleAt(shape, index)
            case PerBlock(_, _) => true
  {
  }

  datatype Tensor = Tensor(shape: Shape, codes: seq<nat>, encoding: Encoding) {
    ghost predicate Valid() { encoding.Fits(shape) && |codes| == Size(shape) }

    function Value(decode: (nat, real) -> real, index: Index): real
      requires Valid() && InShape(shape, index)
    {
      decode(codes[OffsetOf(shape, index)], encoding.ScaleAt(shape, index))
    }
  }

  /** validate_shape: dimensions, axis and number of scales. */
  method ValidateShape(e: Encoding, shape: Shape) returns (fits: bool)
    ensures fits <==> e.Fits(shape)
  {
    if |shape| == 0 || exists d :: 0 <= d < |shape| && shape[d] == 0 {
      return false;
    }
    match e.scaling {
      case PerTensor => return |e.scales| == 1;
      case PerAxis(axis) => return axis < |shape| && |e.scales| == shape[axis];
      case PerBlock(axis, block) => return axis < |shape| && |e.scales| == Size(ScaleShape(shape, axis, block));
    }
  }

  /** Tensor.quantize: values and indices side by side. */
  method Quantize<T>(values: seq<T>, shape: Shape, encoding: Encoding, encode: (T, real) -> nat)
    returns (tensor: Result<Tensor>)
    ensures tensor.Success? <==> encoding.Fits(shape) && |values| == Size(shape)
    ensures tensor.Success? ==>
      && tensor.value.Valid() && tensor.value.shape == shape && tensor.value.encoding == encoding
      && forall index :: InShape(shape, index) ==>
           tensor.value.codes[OffsetOf(shape, index)]
           == encode(values[OffsetOf(shape, index)], encoding.ScaleAt(shape, index))
  {
    var fits := ValidateShape(encoding, shape);
    if !fits || |values| != Size(shape) {
      return Failure("input value count or scale count does not match shape");
    }
    IndicesAt(shape);
    var order := Indices(shape);
    hide Indices, OffsetOf, Encoding.ScaleAt, Encoding.Fits, ScaleShape, CeilDiv, IndexAt, Size, InShape;
    var codes: seq<nat> := [];
    for n := 0 to |order|
      invariant |codes| == n
      invariant forall i :: 0 <= i < n ==>
        InShape(shape, order[i]) && codes[i] == encode(values[i], encoding.ScaleAt(shape, order[i]))
    {
      codes := codes + [encode(values[n], encoding.ScaleAt(shape, order[n]))];
    }
    AllCoded(values, shape, encoding, encode, order, codes);
    return Success(Tensor(shape, codes, encoding));
  }

  /** Codes listed in the order of the indices are the codes of all indices. */
  lemma AllCoded<T>(values: seq<T>, shape: Shape, encoding: Encoding, encode: (T, real) -> nat, order: seq<Index>,
                    codes: seq<nat>)
    requires encoding.Fits(shape) && Positives(shape) && |values| == |order| == |codes| == Size(shape)
    requires forall n :: 0 <= n < Size(shape) ==> order[n] == IndexAt(shape, n)
    requires forall i :: 0 <= i < |codes| ==>
      InShape(shape, order[i]) && codes[i] == encode(values[i], encoding.ScaleAt(shape, order[i]))
    ensures forall index :: InShape(shape, index) ==>
      codes[OffsetOf(shape, index)] == encode(values[OffsetOf(shape, index)], encoding.ScaleAt(shape, index))
  {
    hide OffsetOf, Encoding.ScaleAt, Encoding.Fits, Size, InShape, IndexAt, Positives;
    forall index | InShape(shape, index)
      ensures codes[OffsetOf(shape, index)] == encode(values[OffsetOf(shape, index)], encoding.ScaleAt(shape, index))
    {
      IndexOfOffset(shape, index);
      assert order[OffsetOf(shape, index)] == index;
    }
  }

  /**
   quantize_shared: every element is stored and read with the scale of exactly
   the block that contains it.
   */
  method QuantizeShared<T>(values: seq<T>, shape: Shape, axis: nat, block: Positive, mseScale: seq<T> -> real,
                           encode: (T, real) -> nat, decode: (nat, real) -> real) returns (tensor: Result<Tensor>)
    ensures tensor.Success? <==> Positives(shape) && axis < |shape| && |values| == Size(shape)
    ensures tensor.Success? ==>
      && tensor.value.Valid() && tensor.value.shape == shape
      && forall index :: InShape(shape, index) ==>
           OwnScale(values, shape, axis, block, mseScale, encode, decode, tensor.value, index)
  {
    if (exists d :: 0 <= d < |shape| && shape[d] == 0) || axis >= |shape| || |values| != Size(shape) {
      return Failure("invalid shared tensor shape");
    }
    var scales := BlockScales(values, shape, axis, block, mseScale);
    tensor := Quantize(values, shape, Encoding(scales, PerBlock(axis, block)), encode);
    hide OffsetOf, BlockValues, ScaleShape, Address, BlockLength;
    forall index | InShape(shape, index)
      ensures OwnScale(values, shape, axis, block, mseScale, encode, decode, tensor.value, index)
    {
      AddressInBlock(shape, axis, block, index);
    }
  }

  /** One element: a member of its block, coded and decoded with the scale of that block. */
  ghost predicate OwnScale<T>(values: seq<T>, shape: Shape, axis: nat, block: Positive, mseScale: seq<T> -> real,
                              encode: (T, real) -> nat, decode: (nat, real) -> real, tensor: Tensor, index: Index)
    requires tensor.Valid() && tensor.shape == shape && axis < |shape|
    requires |values| == Size(shape) && InShape(shape, index)
  {
    AddressInBlock(shape, axis, block, index);
    var members := BlockValues(values, shape, axis, block, BlockOf(index, axis, block));
    var value := values[OffsetOf(shape, index)];
    && members[index[axis] % block] == value
    && tensor.Value(decode, index) == decode(encode(value, mseScale(members)), mseScale(members))
  }
}
