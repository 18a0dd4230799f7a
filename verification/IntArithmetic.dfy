/** Division facts on integers, one at a time. */
module IntArithmetic {
  type Positive = x: int | x > 0 witness 1

  function MinInt(a: int, b: int): int { if a <= b then a else b }

  function MaxInt(a: int, b: int): int { if a <= b then b else a }

  /** A product by name, for proofs that must not open it. */
  function IntTimes(a: int, b: int): int { a * b }

  lemma Regroup3(a: int, b: int, c: int)
    ensures a * b * c == a * (b * c)
  {
  }

  lemma MulNonnegative(a: int, b: int)
    requires a >= 0 && b >= 0
    ensures a * b >= 0
  {
  }

  lemma MulPositive(a: int, b: int)
    requires a > 0 && b > 0
    ensures a * b > 0
  {
  }

  /** Multiplying by a positive factor keeps the order; the products come in as x and y. */
  lemma MulOrder(a: int, b: int, d: int, x: int, y: int)
    requires d > 0 && x == a * d && y == b * d
    ensures a <= b <==> x <= y
    ensures a < b <==> x + d <= y
  {
    assert (b - a) * d == y - x;
    if a < b {
      MulNonnegative(b - a - 1, d);
      assert (b - a - 1) * d == y - x - d;
    } else {
      MulNonnegative(a - b, d);
      assert (a - b) * d == x - y;
    }
  }

  lemma SmallMultiple(k: int, d: int, x: int)
    requires d > 0 && x == k * d && -d < x < d
    ensures k == 0
  {
    MulOrder(k, 1, d, x, d);
    MulOrder(-1, k, d, -d, x);
  }

  lemma DivIdentity(n: int, d: int)
    requires d > 0
    ensures n == (n / d) * d + n % d && 0 <= n % d < d
  {
  }

  /** Quotient and remainder are unique. */
  lemma DivUnique(n: int, d: int, q: int, r: int)
    requires d > 0 && n == q * d + r && 0 <= r < d
    ensures n / d == q && n % d == r
  {
    DivIdentity(n, d);
    var p, s := n / d, n % d;
    assert (q - p) * d == s - r;
    SmallMultiple(q - p, d, s - r);
  }

  lemma DivNonnegative(n: int, d: int)
    requires d > 0 && n >= 0
    ensures n / d >= 0
  {
    DivIdentity(n, d);
    MulOrder(n / d, -1, d, (n / d) * d, -d);
  }

  /** ceil(a / b) on exact quotients */
  function CeilDiv(a: nat, b: Positive): (c: nat)
    ensures c * b >= a && (a > 0 ==> (c - 1) * b < a)
    ensures a == 0 ==> c == 0
  {
    DivIdentity(a + b - 1, b);
    DivNonnegative(a + b - 1, b);
    var c := (a + b - 1) / b;
    assert (c - 1) * b == c * b - b;
    if a == 0 then DivUnique(b - 1, b, 0, b - 1); c else c
  }

  /** The i-th block of k positions out of n lies within n*k positions. */
  lemma BlockRange(i: nat, n: nat, k: nat)
    requires i < n
    ensures 0 <= i * k && (i + 1) * k == i * k + k && (i + 1) * k <= n * k
  {
    MulNonnegative(i, k);
    MulNonnegative(n - i - 1, k);
    assert (n - i - 1) * k == n * k - (i + 1) * k;
  }

  /** s[i*k:(i+1)*k] */
  function Block<T>(s: seq<T>, i: nat, n: nat, k: nat): (block: seq<T>)
    requires i < n && |s| == n * k
    ensures |block| == k
    ensures forall x :: x in block ==> x in s
  {
    BlockRange(i, n, k);
    s[i * k..(i + 1) * k]
  }

  /** Position j of block i. */
  lemma BlockAt<T>(s: seq<T>, i: nat, n: nat, k: nat, j: nat)
    requires i < n && |s| == n * k && j < k
    ensures 0 <= i * k + j < |s| && Block(s, i, n, k)[j] == s[i * k + j]
  {
    BlockRange(i, n, k);
  }

  function Concatenated<T>(rows: seq<seq<T>>): seq<T> {
    if |rows| == 0 then [] else Concatenated(rows[..|rows| - 1]) + rows[|rows| - 1]
  }

  /** Blocks listed one after the other are the sequence they were cut from. */
  lemma {:induction false} BlocksConcatenate<T>(s: seq<T>, rows: seq<seq<T>>, n: nat, k: nat, m: nat)
    requires |s| == n * k && m == |rows| <= n && forall i :: 0 <= i < m ==> rows[i] == Block(s, i, n, k)
    ensures 0 <= m * k <= |s| && Concatenated(rows) == s[..m * k]
  {
    if m == 0 {
      MulNonnegative(n, k);
    } else {
      BlockRange(m - 1, n, k);
      BlocksConcatenate(s, rows[..m - 1], n, k, m - 1);
      assert s[..(m - 1) * k] + s[(m - 1) * k..m * k] == s[..m * k];
    }
  }

  /** A position of an n-by-k layout is a row and a column. */
  lemma RowColumn(o: nat, n: nat, k: Positive)
    requires o < n * k
    ensures 0 <= o / k < n && 0 <= o % k < k && o == (o / k) * k + o % k
  {
    DivIdentity(o, k);
    DivNonnegative(o, k);
    MulOrder(o / k, n, k, (o / k) * k, n * k);
  }

  /** i*k + j addresses row i, column j of an n-by-k layout, and nothing else does. */
  lemma FlatIndex(i: nat, j: nat, n: nat, k: nat)
    requires i < n && j < k
    ensures 0 <= i * k + j < n * k
    ensures (i * k + j) / k == i && (i * k + j) % k == j
  {
    BlockRange(i, n, k);
    DivUnique(i * k + j, k, i, j);
  }

  /** Appending one block keeps the blocks before it. */
  lemma AppendBlock<T>(s: seq<T>, t: seq<T>, n: nat, k: nat, i: nat)
    requires |s| == n * k && |t| == k && i <= n
    ensures |s + t| == (n + 1) * k
    ensures Block(s + t, i, n + 1, k) == if i < n then Block(s, i, n, k) else t
  {
    assert (n + 1) * k == n * k + k;
    BlockRange(i, n + 1, k);
    if i < n {
      BlockRange(i, n, k);
    }
  }
}
