/**
 The weight magnitude of a channel, summed over a histogram of its codes
 (value times multiplicity) instead of over its positions.
 */
module WeightHistogram {
  import opened ExactArithmetic
  import opened MacError
  import opened Operands

  function Count(codes: seq<nat>, c: nat): nat {
    if |codes| == 0 then 0 else Count(codes[..|codes| - 1], c) + if codes[|codes| - 1] == c then 1 else 0
  }

  /** The magnitudes at the positions whose code is in the set. */
  ghost function MagnitudeWithin(domain: seq<Coded>, codes: seq<nat>, within: set<nat>): real {
    if |codes| == 0 then 0.0
    else
      var k := |codes| - 1;
      MagnitudeWithin(domain, codes[..k], within)
      + if codes[k] in within then Abs(ValueOf(domain, codes[k])) else 0.0
  }

  lemma {:induction false} AddCode(domain: seq<Coded>, codes: seq<nat>, within: set<nat>, c: nat)
    requires c !in within
    ensures MagnitudeWithin(domain, codes, within + {c})
         == MagnitudeWithin(domain, codes, within) + Site(Count(codes, c), Abs(ValueOf(domain, c)))
  {
    if |codes| > 0 {
      var k := |codes| - 1;
      AddCode(domain, codes[..k], within, c);
      SiteNext(Count(codes[..k], c), Abs(ValueOf(domain, c)));
      hide Site;
    }
  }

  lemma {:induction false} EmptyWithin(domain: seq<Coded>, codes: seq<nat>)
    ensures MagnitudeWithin(domain, codes, {}) == 0.0
  {
    if |codes| > 0 {
      EmptyWithin(domain, codes[..|codes| - 1]);
    }
  }

  lemma {:induction false} AllWithin(domain: seq<Coded>, codes: seq<nat>, within: set<nat>)
    requires forall c :: c in codes ==> c in within
    ensures MagnitudeWithin(domain, codes, within) == AbsSum(Decoded(domain, codes))
  {
    if |codes| > 0 {
      var k := |codes| - 1;
      AllWithin(domain, codes[..k], within);
      assert Decoded(domain, codes)[..k] == Decoded(domain, codes[..k]);
    }
  }

  /** Counter(codes) */
  method CountCodes(codes: seq<nat>) returns (counts: map<nat, nat>)
    ensures forall c :: c in counts <==> c in codes
    ensures forall c :: c in counts ==> counts[c] == Count(codes, c)
  {
    counts := map[];
    for n := 0 to |codes|
      invariant forall c :: c in counts <==> c in codes[..n]
      invariant forall c :: Count(codes[..n], c) == if c in counts then counts[c] else 0
    {
      var c := codes[n];
      assert codes[..n + 1][..n] == codes[..n];
      counts := counts[c := (if c in counts then counts[c] else 0) + 1];
    }
    assert codes[..|codes|] == codes;
  }

  /** sum(abs(w_values[code])*count for code, count in counts.items()) */
  method WeightMagnitude(domain: seq<Coded>, codes: seq<nat>) returns (total: real)
    ensures total == AbsSum(Decoded(domain, codes))
  {
    var counts := CountCodes(codes);
    total := 0.0;
    var remaining := counts.Keys;
    ghost var done: set<nat> := {};
    EmptyWithin(domain, codes);
    while remaining != {}
      invariant remaining + done == counts.Keys && remaining !! done
      invariant total == MagnitudeWithin(domain, codes, done)
      decreases remaining
    {
      var c :| c in remaining;
      AddCode(domain, codes, done, c);
      total := total + Site(counts[c], Abs(ValueOf(domain, c)));
      remaining, done := remaining - {c}, done + {c};
    }
    AllWithin(domain, codes, done);
  }
}
