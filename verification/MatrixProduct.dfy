/** One matrix product, by rows of operands and rows of weights, whatever a kernel makes of two rows. */
module MatrixProduct {
  import opened IntArithmetic

  /** Output (n, c) of a batch-by-channels product is the kernel of row n and weight row c. */
  function Product<T(!new), C>(kernel: (seq<T>, seq<T>) --> C, xs: seq<T>, ws: seq<T>, batch: nat, channels: Positive,
                               k: nat): (r: seq<C>)
    requires |xs| == batch * k && |ws| == channels * k
    requires forall x, w :: |x| == |w| == k ==> kernel.requires(x, w)
    ensures |r| == batch * channels
    ensures forall o :: 0 <= o < |r| ==>
      0 <= o / channels < batch && 0 <= o % channels < channels
      && r[o] == kernel(Block(xs, o / channels, batch, k), Block(ws, o % channels, channels, k))
  {
    assert forall o: nat :: o < batch * channels ==> 0 <= o / channels < batch && 0 <= o % channels < channels by {
      forall o: nat | o < batch * channels
        ensures 0 <= o / channels < batch && 0 <= o % channels < channels
      {
        RowColumn(o, batch, channels);
      }
    }
    MulNonnegative(batch, channels);
    seq(batch * channels, o requires 0 <= o < batch * channels =>
      kernel(Block(xs, o / channels, batch, k), Block(ws, o % channels, channels, k)))
  }
}
