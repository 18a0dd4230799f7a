/** Sums of integer sequences, independent of their order. */
module IntegerSum {
  function IntSum(terms: seq<int>): int {
    if |terms| == 0 then 0 else IntSum(terms[..|terms| - 1]) + terms[|terms| - 1]
  }

  lemma {:induction false} SumWithout(terms: seq<int>, i: nat)
    requires i < |terms|
    ensures IntSum(terms) == terms[i] + IntSum(terms[..i] + terms[i + 1..])
  {
    var k := |terms| - 1;
    var rest := terms[..i] + terms[i + 1..];
    if i == k {
      assert rest == terms[..k];
    } else {
      SumWithout(terms[..k], i);
      assert terms[..k][..i] + terms[..k][i + 1..] == rest[..k - 1];
      assert rest[k - 1] == terms[k];
    }
  }

  lemma RemovedOne(s: seq<int>, i: nat)
    requires i < |s|
    ensures multiset(s[..i] + s[i + 1..]) == multiset(s) - multiset{s[i]}
  {
    assert s == s[..i] + ([s[i]] + s[i + 1..]);
  }

  /** The order of the terms does not matter. */
  lemma {:induction false} SumOfPermutation(a: seq<int>, b: seq<int>)
    requires multiset(a) == multiset(b)
    ensures IntSum(a) == IntSum(b)
  {
    assert |multiset(a)| == |a| && |multiset(b)| == |b|;
    if |a| > 0 {
      var k := |a| - 1;
      assert a[k] in multiset(b);
      var i :| 0 <= i < |b| && b[i] == a[k];
      SumWithout(b, i);
      SumWithout(a, k);
      RemovedOne(a, k);
      RemovedOne(b, i);
      SumOfPermutation(a[..k] + a[k + 1..], b[..i] + b[i + 1..]);
    }
  }
}
