/**
 Distances from a shifted lattice b + qZ to the thresholds of an output store,
 and the enumeration of the lattice sites near a threshold.
 */
module StoreMargin {
  import opened ExactArithmetic
  import opened FloatAccumulator
  import opened Codebook

  /** min((r - b) % q, (b - r) % q) for the residue r of one threshold. */
  function ResidueGap(r: real, b: real, q: real): real
    requires q > 0.0
  {
    Min(Mod(r - b, q), Mod(b - r, q))
  }

  /** The distance between the threshold t and the lattice site of index i, shifted by b. */
  function SiteGap(i: int, b: real, q: real, t: real): real {
    Abs(Site(i, q) + b - t)
  }

  /** The residue forgets a lattice site, so the gap is that of the threshold itself. */
  lemma ResidueForgets(t: real, b: real, q: real)
    requires q > 0.0
    ensures ResidueGap(Mod(t, q), b, q) == Min(Mod(t - b, q), Mod(b - t, q))
  {
    var n := (t / q).Floor;
    var r := Mod(t, q);
    assert r == t - Site(n, q);
    hide Mod, Site;
    ModShift(r - b, n, q);
    ModShift(b - t, n, q);
    assert t - b == (r - b) + Site(n, q);
    assert b - r == (b - t) + Site(n, q);
  }

  /** The complementary residues of x and -x. */
  lemma OppositeResidue(x: real, q: real) returns (n: int)
    requires q > 0.0
    ensures x == Site(n, q) + Mod(x, q)
    ensures Mod(-x, q) == if Mod(x, q) == 0.0 then 0.0 else q - Mod(x, q)
  {
    n := (x / q).Floor;
    var m := Mod(x, q);
    assert x == Site(n, q) + m;
    SiteSum(0, n, q);
    SiteSum(-n, 1, q);
    if m == 0.0 {
      ModUnique(-x, -n, q);
    } else {
      ModUnique(-x, -n - 1, q);
    }
  }

  /** Every site is at least the gap away from the threshold. */
  lemma GapBelow(t: real, b: real, q: real, i: int)
    requires q > 0.0
    ensures ResidueGap(Mod(t, q), b, q) <= SiteGap(i, b, q, t)
  {
    ResidueForgets(t, b, q);
    var x := t - b;
    var n := OppositeResidue(x, q);
    assert -x == b - t;
    hide Mod;
    SiteSum(n, i, q);
    SiteOrder(n - i, q);
    hide Site;
  }

  lemma SiteOrder(d: int, q: real)
    requires q > 0.0
    ensures d >= 0 ==> Site(d, q) >= 0.0
    ensures d <= -1 ==> Site(d, q) <= -q
    ensures d >= 1 ==> Site(d, q) >= q
  {
    Scale(0.0, d as real, q, 0.0, Site(d, q));
    Scale(d as real, -1.0, q, Site(d, q), -q);
    Scale(1.0, d as real, q, q, Site(d, q));
  }

  /** Some site is exactly the gap away. */
  lemma GapAttained(t: real, b: real, q: real) returns (i: int)
    requires q > 0.0
    ensures SiteGap(i, b, q, t) == ResidueGap(Mod(t, q), b, q)
  {
    ResidueForgets(t, b, q);
    var x := t - b;
    var n := OppositeResidue(x, q);
    assert -x == b - t;
    i := if Mod(x, q) <= Mod(-x, q) then n else n + 1;
    SiteSum(n, 1, q);
    assert Site(1, q) == q;
    hide Mod, Site;
  }

  /** The lattice stays farther than e from every threshold. */
  ghost predicate Clear(ts: seq<real>, b: real, q: real, e: real) {
    forall t, i: int :: t in ts ==> SiteGap(i, b, q, t) > e
  }

  /** min over residues: the distance from the shifted lattice to the thresholds. */
  method ThresholdDistance(ts: seq<real>, b: real, q: real) returns (distance: real)
    requires |ts| > 0 && q > 0.0
    ensures forall t, i: int :: t in ts ==> distance <= SiteGap(i, b, q, t)
    ensures exists t, i: int :: t in ts && distance == SiteGap(i, b, q, t)
    ensures forall e :: distance > e <==> Clear(ts, b, q, e)
  {
    distance := ResidueGap(Mod(ts[0], q), b, q);
    ghost var site := GapAttained(ts[0], b, q);
    ghost var nearest := ts[0];
    hide ResidueGap, SiteGap;
    forall i: int
      ensures distance <= SiteGap(i, b, q, ts[0])
    {
      GapBelow(ts[0], b, q, i);
    }
    for n := 1 to |ts|
      invariant forall k, i: int :: 0 <= k < n ==> distance <= SiteGap(i, b, q, ts[k])
      invariant nearest in ts && distance == SiteGap(site, b, q, nearest)
    {
      var gap := ResidueGap(Mod(ts[n], q), b, q);
      forall i: int
        ensures gap <= SiteGap(i, b, q, ts[n])
      {
        GapBelow(ts[n], b, q, i);
      }
      if gap < distance {
        distance, nearest := gap, ts[n];
        site := GapAttained(ts[n], b, q);
      }
    }
  }

  /** The sites that a perturbation of at most e could carry across a threshold. */
  ghost predicate Sensitive(ts: seq<real>, b: real, q: real, e: real, maximum: real, i: int) {
    Abs(Site(i, q)) <= maximum && exists t :: t in ts && SiteGap(i, b, q, t) <= e
  }

  function LowestSite(t: real, b: real, q: real, e: real): int
    requires q > 0.0
  {
    Ceil((t - b - e) / q)
  }

  function HighestSite(t: real, b: real, q: real, e: real): int
    requires q > 0.0
  {
    ((t - b + e) / q).Floor
  }

  /** The floor and ceiling bounds list exactly the sites within e of the threshold. */
  lemma SiteRange(t: real, b: real, q: real, e: real, i: int)
    requires q > 0.0
    ensures LowestSite(t, b, q, e) <= i <= HighestSite(t, b, q, e) <==> SiteGap(i, b, q, t) <= e
  {
    var lo, hi := (t - b - e) / q, (t - b + e) / q;
    assert lo * q == t - b - e && hi * q == t - b + e;
    Scale(lo, i as real, q, t - b - e, Site(i, q));
    Scale(i as real, hi, q, Site(i, q), t - b + e);
    assert lo <= i as real <==> Ceil(lo) <= i;
    assert i as real <= hi <==> i <= hi.Floor;
    hide Site;
  }

  /** A threshold has at most one candidate site when 2e < q, and at most 17 when 2e <= 16q. */
  lemma FewSites(t: real, b: real, q: real, e: real)
    requires q > 0.0
    ensures 2.0 * e < q ==> HighestSite(t, b, q, e) - LowestSite(t, b, q, e) < 1
    ensures 2.0 * e <= 16.0 * q ==> HighestSite(t, b, q, e) - LowestSite(t, b, q, e) < 17
  {
    var lo, hi := (t - b - e) / q, (t - b + e) / q;
    assert lo * q == t - b - e && hi * q == t - b + e;
    var width := hi - lo;
    assert width * q == 2.0 * e;
    Scale(width, 1.0, q, 2.0 * e, q);
    Scale(width, 16.0, q, 2.0 * e, 16.0 * q);
  }

  /** Collects the sensitive sites, threshold by threshold. */
  method SensitiveSites(ts: seq<real>, b: real, q: real, e: real, maximum: real) returns (sites: seq<int>)
    requires q > 0.0
    ensures forall i: int :: i in sites <==> Sensitive(ts, b, q, e, maximum, i)
  {
    sites := [];
    for n := 0 to |ts|
      invariant forall i: int :: i in sites <==> Sensitive(ts[..n], b, q, e, maximum, i)
    {
      var lo, hi := LowestSite(ts[n], b, q, e), HighestSite(ts[n], b, q, e);
      ghost var before := sites;
      var index := lo;
      while index <= hi
        invariant lo <= index
        invariant index <= hi + 1 || index == lo
        invariant forall i: int :: i in sites <==>
          i in before || (lo <= i < index && Abs(Site(i, q)) <= maximum)
      {
        if Abs(Site(index, q)) <= maximum && index !in sites {
          sites := sites + [index];
        }
        index := index + 1;
      }
      forall i: int
        ensures i in sites <==> Sensitive(ts[..n + 1], b, q, e, maximum, i)
      {
        SiteRange(ts[n], b, q, e, i);
        SensitiveStep(ts, n, b, q, e, maximum, i);
      }
    }
    assert ts[..|ts|] == ts;
  }

  lemma SensitiveStep(ts: seq<real>, n: nat, b: real, q: real, e: real, maximum: real, i: int)
    requires n < |ts|
    ensures Sensitive(ts[..n + 1], b, q, e, maximum, i)
       <==> Sensitive(ts[..n], b, q, e, maximum, i)
            || (Abs(Site(i, q)) <= maximum && SiteGap(i, b, q, ts[n]) <= e)
  {
    assert ts[..n + 1] == ts[..n] + [ts[n]];
    hide Site, SiteGap;
  }

  /** A value within e of a site that is clear of the thresholds is stored alike. */
  lemma ClearStore(book: Book, i: int, b: real, q: real, e: real, model: Stored)
    requires |book.entries| > 0 && model.IsReal()
    requires forall t :: t in Thresholds(book) ==> SiteGap(i, b, q, t) > e
    requires Abs(model.Value() - (Site(i, q) + b)) <= e
    ensures Encode(book, Finite(Site(i, q) + b)) == Encode(book, model)
  {
    hide Thresholds, Encode, Site;
    var ideal := Site(i, q) + b;
    assert !Separates(Thresholds(book), ideal, model.Value()) by {
      forall t | t in Thresholds(book)
        ensures !(ideal <= t <= model.Value() || model.Value() <= t <= ideal)
      {
        assert SiteGap(i, b, q, t) > e;
      }
    }
    StoreConstant(book, Finite(ideal), model);
  }
}
