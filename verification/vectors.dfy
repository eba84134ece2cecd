/**
 * Sparse term vectors: the JavaScript records `Record<string, number>` that hold a query's
 * or a document's weights, as maps from term to weight, and the sums the scorers take over them.
 */
module Vectors {
  import opened Terms

  /** A sparse term-weight vector. */
  type Vector = map<Term, real>

  /**
   * The sum of f over the terms of ks, taken in ascending term order so that it is
   * determined; SumRemove shows the order does not matter.
   */
  function Sum(ks: set<Term>, f: Term -> real): real
    decreases |ks|
  {
    if ks == {} then 0.0
    else
      LeastExists(ks);
      LessConnected();
      var k :| IsLeast(k, ks);
      f(k) + Sum(ks - {k}, f)
  }

  /** Taking any one term out first gives the same sum. */
  lemma {:induction false} SumRemove(ks: set<Term>, f: Term -> real, k: Term)
    requires k in ks
    ensures Sum(ks, f) == f(k) + Sum(ks - {k}, f)
    decreases |ks|
  {
    LeastExists(ks);
    LessConnected();
    var m :| IsLeast(m, ks);
    assert Sum(ks, f) == f(m) + Sum(ks - {m}, f);
    if m != k {
      SumRemove(ks - {m}, f, k);
      SumRemove(ks - {k}, f, m);
      assert ks - {m} - {k} == ks - {k} - {m};
    }
  }

  /** Adding one term to the summed set adds its value. */
  lemma SumAdd(ks: set<Term>, f: Term -> real, k: Term)
    requires k !in ks
    ensures Sum(ks + {k}, f) == Sum(ks, f) + f(k)
  {
    SumRemove(ks + {k}, f, k);
    assert ks + {k} - {k} == ks;
  }

  lemma {:induction false} SumNonNegative(ks: set<Term>, f: Term -> real)
    requires forall k | k in ks :: f(k) >= 0.0
    ensures Sum(ks, f) >= 0.0
    decreases |ks|
  {
    if ks != {} {
      var k :| k in ks;
      SumRemove(ks, f, k);
      SumNonNegative(ks - {k}, f);
    }
  }

  /** A sum of non-negative values is zero exactly when every value is. */
  lemma {:induction false} SumZeroIff(ks: set<Term>, f: Term -> real)
    requires forall k | k in ks :: f(k) >= 0.0
    ensures Sum(ks, f) == 0.0 <==> forall k | k in ks :: f(k) == 0.0
    decreases |ks|
  {
    if ks != {} {
      var k :| k in ks;
      SumRemove(ks, f, k);
      SumZeroIff(ks - {k}, f);
      SumNonNegative(ks - {k}, f);
    }
  }

  /** Sums of functions that agree on the summed terms are equal. */
  lemma {:induction false} SumCongruent(ks: set<Term>, f: Term -> real, g: Term -> real)
    requires forall k | k in ks :: f(k) == g(k)
    ensures Sum(ks, f) == Sum(ks, g)
    decreases |ks|
  {
    if ks != {} {
      var k :| k in ks;
      SumRemove(ks, f, k);
      SumRemove(ks, g, k);
      SumCongruent(ks - {k}, f, g);
    }
  }

  /** The pointwise product of two vectors, zero where either has no entry. */
  function Product(q: Vector, d: Vector): Term -> real
  {
    t => if t in q && t in d then q[t] * d[t] else 0.0
  }

  /** The dot product: the sum of q[t] * d[t] over the terms present in both vectors. */
  function Dot(q: Vector, d: Vector): real
  {
    Sum(q.Keys * d.Keys, Product(q, d))
  }

  /** Every weight is non-negative. */
  ghost predicate NonNegative(v: Vector)
  {
    forall t | t in v :: v[t] >= 0.0
  }

  lemma DotEmpty(q: Vector, d: Vector)
    requires q == map[] || d == map[]
    ensures Dot(q, d) == 0.0
  {
    assert q.Keys * d.Keys == {};
  }

  lemma DotNonNegative(q: Vector, d: Vector)
    requires NonNegative(q) && NonNegative(d)
    ensures Dot(q, d) >= 0.0
  {
    SumNonNegative(q.Keys * d.Keys, Product(q, d));
  }

  lemma DotSymmetric(q: Vector, d: Vector)
    ensures Dot(q, d) == Dot(d, q)
  {
    assert q.Keys * d.Keys == d.Keys * q.Keys;
    SumCongruent(q.Keys * d.Keys, Product(q, d), Product(d, q));
  }

  /** Vectors with no term in common have dot product 0. */
  lemma DotDisjoint(q: Vector, d: Vector)
    requires q.Keys !! d.Keys
    ensures Dot(q, d) == 0.0
  {
    assert q.Keys * d.Keys == {};
  }

  /**
   * `Object.values(v).reduce((sum, f) => sum + f * f, 0)`: the squared Euclidean norm.
   * For non-negative weights it is non-negative, and 0 exactly when every weight is 0.
   */
  function SumOfSquares(v: Vector): (s: real)
    ensures NonNegative(v) ==> s >= 0.0 && (s == 0.0 <==> forall t | t in v :: v[t] == 0.0)
  {
    var s := Sum(v.Keys, Product(v, v));
    assert NonNegative(v) ==> s >= 0.0 && (s == 0.0 <==> forall t | t in v :: v[t] == 0.0) by {
      if NonNegative(v) {
        forall k | k in v.Keys
          ensures Product(v, v)(k) >= 0.0
          ensures Product(v, v)(k) == 0.0 <==> v[k] == 0.0
        {
          if v[k] > 0.0 {
            ProductPositive(v, v, k);
          }
        }
        SumNonNegative(v.Keys, Product(v, v));
        SumZeroIff(v.Keys, Product(v, v));
      }
    }
    s
  }

  /*
   * Stated for two vectors so that the solver never meets a square: it does not
   * reliably conclude x * x > 0 from x > 0 once the square is named.
   */
  lemma ProductPositive(q: Vector, d: Vector, k: Term)
    requires k in q && k in d && q[k] > 0.0 && d[k] > 0.0
    ensures Product(q, d)(k) > 0.0
  {
  }

  /** Every weight is positive, as in the query and document vectors the scorers build. */
  ghost predicate Positive(v: Vector)
  {
    forall t | t in v :: v[t] > 0.0
  }

  /** For positive vectors, the dot product is zero exactly when they share no term. */
  lemma DotZeroIffDisjoint(q: Vector, d: Vector)
    requires Positive(q) && Positive(d)
    ensures Dot(q, d) >= 0.0
    ensures Dot(q, d) == 0.0 <==> q.Keys !! d.Keys
  {
    var common := q.Keys * d.Keys;
    forall k | k in common ensures Product(q, d)(k) > 0.0 {
      ProductPositive(q, d, k);
    }
    SumNonNegative(common, Product(q, d));
    SumZeroIff(common, Product(q, d));
    if q.Keys !! d.Keys {
      assert common == {};
    } else {
      var k :| k in q && k in d;
      assert k in common;
    }
  }

  /** x / mx for 0 <= x <= mx: a fraction in [0, 1], positive when x is, and 1 exactly when x is mx. */
  lemma Fraction(x: real, mx: real)
    requires 0.0 <= x <= mx && mx > 0.0
    ensures 0.0 <= x / mx <= 1.0
    ensures x / mx > 0.0 <==> x > 0.0
    ensures x / mx == 1.0 <==> x == mx
  {
  }

  /** A product of two non-negative weights is non-negative. */
  lemma NonNegativeProduct(x: real, y: real)
    requires x >= 0.0 && y >= 0.0
    ensures x * y >= 0.0
  {
  }
}
