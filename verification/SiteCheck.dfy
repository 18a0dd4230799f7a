/**
 The check of sensitive lattice sites that the store certificates share: a model
 that stays within an error bound of every bounded site stores the exact code at
 all of them as soon as it does so at the sensitive ones.
 */
module SiteCheck {
  import opened ExactArithmetic
  import opened FloatAccumulator
  import opened Codebook
  import opened StoreMargin

  /** What an execution stores for the lattice site i. */
  type Model = int -> Stored

  /** The site i plus bias, exact against the model. */
  ghost predicate SiteAgrees(book: Book, b: real, q: real, model: Model, i: int)
    requires |book.entries| > 0
  {
    model(i).IsReal() && Encode(book, Finite(Site(i, q) + b)) == Encode(book, model(i))
  }

  ghost predicate AllSitesAgree(book: Book, b: real, q: real, model: Model, maximum: real)
    requires |book.entries| > 0
  {
    forall i: int :: Abs(Site(i, q)) <= maximum ==> SiteAgrees(book, b, q, model, i)
  }

  /** The model is a number within e of the exact value. */
  ghost predicate Near(b: real, q: real, e: real, model: Model, i: int) {
    model(i).IsReal() && Abs(model(i).Value() - (Site(i, q) + b)) <= e
  }

  ghost predicate AllNear(b: real, q: real, e: real, model: Model, maximum: real) {
    forall i: int :: Abs(Site(i, q)) <= maximum ==> Near(b, q, e, model, i)
  }

  /** A site that no threshold approaches within the error bound is stored alike. */
  lemma InsensitiveSite(book: Book, b: real, q: real, e: real, model: Model, maximum: real, i: int)
    requires |book.entries| > 0 && Abs(Site(i, q)) <= maximum && Near(b, q, e, model, i)
    requires !Sensitive(Thresholds(book), b, q, e, maximum, i)
    ensures SiteAgrees(book, b, q, model, i)
  {
    hide Thresholds, Encode, SiteGap, Site;
    ClearStore(book, i, b, q, e, model(i));
  }

  /** Only sensitive sites can be stored differently. */
  lemma SensitiveSettle(book: Book, b: real, q: real, e: real, model: Model, maximum: real)
    requires |book.entries| > 0 && AllNear(b, q, e, model, maximum)
    requires forall i: int :: Sensitive(Thresholds(book), b, q, e, maximum, i) ==> SiteAgrees(book, b, q, model, i)
    ensures AllSitesAgree(book, b, q, model, maximum)
  {
    hide Thresholds, SiteGap, Site, SiteAgrees, Sensitive, Near;
    forall i: int | Abs(Site(i, q)) <= maximum
      ensures SiteAgrees(book, b, q, model, i)
    {
      if !Sensitive(Thresholds(book), b, q, e, maximum, i) {
        InsensitiveSite(book, b, q, e, model, maximum, i);
      }
    }
  }

  /** A lattice that clears the thresholds has no sensitive site. */
  lemma ClearSettles(book: Book, b: real, q: real, e: real, model: Model, maximum: real)
    requires |book.entries| > 0 && AllNear(b, q, e, model, maximum) && Clear(Thresholds(book), b, q, e)
    ensures AllSitesAgree(book, b, q, model, maximum)
  {
    hide Thresholds, SiteGap, Site, SiteAgrees, Near, AllNear, AllSitesAgree;
    SensitiveSettle(book, b, q, e, model, maximum);
  }

  /** Stops at four examples, as the reports do; empty exactly when every listed site agrees. */
  method Mismatches(book: Book, b: real, q: real, model: Model, sites: seq<int>) returns (mismatches: seq<int>)
    requires |book.entries| > 0
    ensures mismatches == [] <==> forall i :: i in sites ==> SiteAgrees(book, b, q, model, i)
    ensures |mismatches| <= 4 && forall i :: i in mismatches ==> i in sites && !SiteAgrees(book, b, q, model, i)
  {
    hide Encode, Site;
    mismatches := [];
    for n := 0 to |sites|
      invariant mismatches == [] <==> forall i :: i in sites[..n] ==> SiteAgrees(book, b, q, model, i)
      invariant |mismatches| < 4
      invariant forall i :: i in mismatches ==> i in sites && !SiteAgrees(book, b, q, model, i)
    {
      var i := sites[n];
      assert sites[..n + 1] == sites[..n] + [i];
      assert i in sites[..n + 1] && i in sites;
      if !model(i).IsReal() || Encode(book, Finite(Site(i, q) + b)) != Encode(book, model(i)) {
        assert !SiteAgrees(book, b, q, model, i);
        mismatches := mismatches + [i];
        if |mismatches| == 4 {
          return;
        }
      }
    }
    assert sites[..|sites|] == sites;
  }

  /** The sensitive sites, listed and compared: no mismatch exactly when every bounded site agrees. */
  method CheckSites(book: Book, ts: seq<real>, b: real, q: real, e: real, model: Model, maximum: real)
    returns (mismatches: seq<int>)
    requires |book.entries| > 0 && ts == Thresholds(book) && q > 0.0 && AllNear(b, q, e, model, maximum)
    ensures mismatches == [] <==> AllSitesAgree(book, b, q, model, maximum)
    ensures |mismatches| <= 4
    ensures forall i: int :: i in mismatches ==> Sensitive(ts, b, q, e, maximum, i) && !SiteAgrees(book, b, q, model, i)
  {
    hide Thresholds, SiteGap, Site, SiteAgrees, Near, AllNear;
    var sites := SensitiveSites(ts, b, q, e, maximum);
    mismatches := Mismatches(book, b, q, model, sites);
    if mismatches == [] {
      SensitiveSettle(book, b, q, e, model, maximum);
    } else {
      assert mismatches[0] in mismatches;
    }
  }
}
