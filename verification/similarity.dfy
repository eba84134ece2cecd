/**
 * Similarity: the two scores of a query vector against a document vector, the raw dot
 * product (`docDotProdSim`) and the cosine of the angle between them
 * (`docCosineSimilarity`).
 */
module Similarity {
  import opened Terms
  import opened Vectors

  /**
   * `docDotProdSim`: for each term of the query that the document also has, adds the
   * product of the two weights; the result is the dot product of the two vectors.
   */
  method DocDotProdSim(q: Vector, d: Vector) returns (dot: real)
    ensures dot == Dot(q, d)
  {
    dot := 0.0;
    var pending := q.Keys;
    while pending != {}
      invariant pending <= q.Keys
      invariant dot == Sum((q.Keys - pending) * d.Keys, Product(q, d))
      decreases |pending|
    {
      var term :| term in pending;
      DotStep(q, d, pending, term);
      if term in d {
        dot := dot + q[term] * d[term];
      }
      pending := pending - {term};
    }
    assert q.Keys - pending == q.Keys;
  }

  /** Visiting one more query term adds its product when the document has the term. */
  lemma DotStep(q: Vector, d: Vector, pending: set<Term>, term: Term)
    requires term in pending
    ensures Sum((q.Keys - (pending - {term})) * d.Keys, Product(q, d)) ==
            Sum((q.Keys - pending) * d.Keys, Product(q, d)) + if term in q && term in d then q[term] * d[term] else 0.0
  {
    var done := (q.Keys - pending) * d.Keys;
    if term in q && term in d {
      SumAdd(done, Product(q, d), term);
      assert (q.Keys - (pending - {term})) * d.Keys == done + {term};
    } else {
      assert (q.Keys - (pending - {term})) * d.Keys == done;
    }
  }

  /**
   * The cosine score: the dot product divided by the product of the two Euclidean norms,
   * or 0 when either norm is 0.
   */
  function Cosine(sqrt: real -> real, q: Vector, d: Vector): real
  {
    Normalized(Dot(q, d), sqrt(SumOfSquares(q)), sqrt(SumOfSquares(d)))
  }

  /** The guarded division of `docCosineSimilarity`. */
  function Normalized(dot: real, magQuery: real, docMag: real): real
  {
    if magQuery == 0.0 || docMag == 0.0 then 0.0 else dot / (magQuery * docMag)
  }

  /** `docCosineSimilarity`, with `Math.sqrt` given as `sqrt`. */
  method DocCosineSimilarity(sqrt: real -> real, q: Vector, d: Vector) returns (sim: real)
    ensures sim == Cosine(sqrt, q, d)
    ensures sqrt(SumOfSquares(q)) == 0.0 || sqrt(SumOfSquares(d)) == 0.0 ==> sim == 0.0
  {
    var dot := DocDotProdSim(q, d);
    var magQuery := sqrt(SumOfSquares(q));
    var docMag := sqrt(SumOfSquares(d));
    sim := DivideByNorms(dot, magQuery, docMag);
  }

  /** The guard and the division that end `docCosineSimilarity`. */
  method DivideByNorms(dot: real, magQuery: real, docMag: real) returns (sim: real)
    ensures sim == Normalized(dot, magQuery, docMag)
    ensures magQuery == 0.0 || docMag == 0.0 ==> sim == 0.0
    ensures magQuery != 0.0 && docMag != 0.0 ==> sim * (magQuery * docMag) == dot
  {
    if magQuery == 0.0 || docMag == 0.0 {
      return 0.0;
    }
    sim := dot / (magQuery * docMag);
  }

  /** Dividing a non-negative dot product by non-negative norms gives a non-negative score. */
  lemma NormalizedNonNegative(dot: real, magQuery: real, docMag: real)
    requires dot >= 0.0 && magQuery >= 0.0 && docMag >= 0.0
    ensures Normalized(dot, magQuery, docMag) >= 0.0
  {
  }

  /** With both norms positive, the score is 0 exactly when the dot product is. */
  lemma NormalizedZeroIff(dot: real, magQuery: real, docMag: real)
    requires magQuery > 0.0 && docMag > 0.0
    ensures Normalized(dot, magQuery, docMag) == 0.0 <==> dot == 0.0
  {
    var m := magQuery * docMag;
    assert dot / m * m == dot;
  }

  /** An empty query or an empty document scores 0, whatever `sqrt` returns. */
  lemma CosineEmpty(sqrt: real -> real, q: Vector, d: Vector)
    requires q == map[] || d == map[]
    ensures Cosine(sqrt, q, d) == 0.0
  {
    DotEmpty(q, d);
  }

  /** With a square root that is never negative, non-negative vectors have a non-negative cosine. */
  lemma CosineNonNegative(sqrt: real -> real, q: Vector, d: Vector)
    requires forall x: real | x >= 0.0 :: sqrt(x) >= 0.0
    requires NonNegative(q) && NonNegative(d)
    ensures Cosine(sqrt, q, d) >= 0.0
  {
    DotNonNegative(q, d);
    NormalizedNonNegative(Dot(q, d), sqrt(SumOfSquares(q)), sqrt(SumOfSquares(d)));
  }

  /**
   * With a square root that is positive on positive numbers, two positive vectors have
   * cosine 0 exactly when they share no term.
   */
  lemma CosineZeroIffDisjoint(sqrt: real -> real, q: Vector, d: Vector)
    requires forall x: real | x > 0.0 :: sqrt(x) > 0.0
    requires Positive(q) && Positive(d)
    ensures Cosine(sqrt, q, d) == 0.0 <==> q.Keys !! d.Keys
  {
    DotZeroIffDisjoint(q, d);
    if q == map[] || d == map[] {
      CosineEmpty(sqrt, q, d);
    } else {
      var s :| s in q;
      var t :| t in d;
      assert SumOfSquares(q) > 0.0 && SumOfSquares(d) > 0.0;
      NormalizedZeroIff(Dot(q, d), sqrt(SumOfSquares(q)), sqrt(SumOfSquares(d)));
    }
  }
}
