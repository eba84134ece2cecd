/**
 * Terms: the normalised tokens that label the rows of the index, JavaScript's default
 * string order on them, and the sorted, de-duplicated vocabulary built from a token list.
 */
module Terms {

  /** A stemmed, stop-word-filtered token. */
  type Term = string

  /**
   * The order `Array.prototype.sort` uses when no comparator is given: lexicographic,
   * character by character, a proper prefix coming first.
   */
  predicate Less(a: Term, b: Term)
    decreases |a|
  {
    if |a| == 0 then |b| != 0
    else if |b| == 0 then false
    else if a[0] != b[0] then a[0] < b[0]
    else Less(a[1..], b[1..])
  }

  lemma {:induction false} LessIrreflexive(a: Term)
    ensures !Less(a, a)
    decreases |a|
  {
    if |a| != 0 {
      LessIrreflexive(a[1..]);
    }
  }

  lemma {:induction false} LessAsymmetric(a: Term, b: Term)
    requires Less(a, b)
    ensures !Less(b, a)
    decreases |a|
  {
    if |a| != 0 && |b| != 0 && a[0] == b[0] {
      LessAsymmetric(a[1..], b[1..]);
    }
  }

  lemma {:induction false} LessTransitive(a: Term, b: Term, c: Term)
    requires Less(a, b) && Less(b, c)
    ensures Less(a, c)
    decreases |a|
  {
    if |a| != 0 && a[0] == b[0] && b[0] == c[0] {
      LessTransitive(a[1..], b[1..], c[1..]);
    }
  }

  lemma {:induction false} LessTotal(a: Term, b: Term)
    ensures a == b || Less(a, b) || Less(b, a)
    decreases |a|
  {
    if |a| != 0 && |b| != 0 && a[0] == b[0] {
      LessTotal(a[1..], b[1..]);
      if a[1..] == b[1..] {
        assert a == [a[0]] + a[1..] && b == [b[0]] + b[1..];
      }
    }
  }

  /** Any two distinct terms are ordered one way or the other. */
  lemma LessConnected()
    ensures forall a: Term, b: Term :: a == b || Less(a, b) || Less(b, a)
  {
    forall a: Term, b: Term ensures a == b || Less(a, b) || Less(b, a) {
      LessTotal(a, b);
    }
  }

  /** Every element of s comes strictly before the next one: sorted and without duplicates. */
  ghost predicate StrictlySorted(s: seq<Term>)
  {
    forall i, j | 0 <= i < j < |s| :: Less(s[i], s[j])
  }

  /** x is the least element of ks. */
  predicate IsLeast(x: Term, ks: set<Term>)
  {
    x in ks && forall y | y in ks :: !Less(y, x)
  }

  lemma {:induction false} LeastExists(ks: set<Term>)
    requires ks != {}
    ensures exists x :: IsLeast(x, ks)
    decreases |ks|
  {
    var x :| x in ks;
    var rest := ks - {x};
    if rest == {} {
      assert ks == {x};
      LessIrreflexive(x);
      assert IsLeast(x, ks);
    } else {
      LeastExists(rest);
      var m :| IsLeast(m, rest);
      if Less(x, m) {
        forall y | y in ks ensures !Less(y, x) {
          if y == x {
            LessIrreflexive(x);
          } else if Less(y, x) {
            LessTransitive(y, x, m);
          }
        }
        assert IsLeast(x, ks);
      } else {
        assert IsLeast(m, ks);
      }
    }
  }

  /** Adds x to a strictly sorted sequence, keeping it strictly sorted. */
  function Insert(x: Term, s: seq<Term>): (r: seq<Term>)
    requires StrictlySorted(s)
    ensures StrictlySorted(r)
    ensures forall t :: t in r <==> t in s || t == x
    decreases |s|
  {
    if s == [] then [x]
    else if x == s[0] then s
    else if Less(x, s[0]) then
      assert forall j | 0 < j < |s| :: Less(x, s[j]) by {
        forall j | 0 < j < |s| ensures Less(x, s[j]) { LessTransitive(x, s[0], s[j]); }
      }
      [x] + s
    else
      var tail := Insert(x, s[1..]);
      LessTotal(x, s[0]);
      assert forall j | 0 <= j < |tail| :: Less(s[0], tail[j]) by {
        forall j | 0 <= j < |tail| ensures Less(s[0], tail[j]) {
          assert tail[j] in tail;
          if tail[j] != x {
            var k :| 0 <= k < |s[1..]| && s[1..][k] == tail[j];
            assert s[k + 1] == tail[j];
          }
        }
      }
      [s[0]] + tail
  }

  /**
   * `[...new Set(tokens)].sort()`: the distinct tokens in ascending order.
   * Built by inserting the tokens one by one into a sorted sequence.
   */
  function SortedDistinct(tokens: seq<Term>): (v: seq<Term>)
    ensures StrictlySorted(v)
    ensures forall t :: t in v <==> t in tokens
  {
    if tokens == [] then []
    else
      var prefix := SortedDistinct(tokens[..|tokens| - 1]);
      var v := Insert(tokens[|tokens| - 1], prefix);
      assert tokens == tokens[..|tokens| - 1] + [tokens[|tokens| - 1]];
      v
  }

  /** A strictly sorted sequence has no repeated term. */
  lemma StrictlySortedDistinct(s: seq<Term>, i: int, j: int)
    requires StrictlySorted(s)
    requires 0 <= i < |s| && 0 <= j < |s| && i != j
    ensures s[i] != s[j]
  {
    if i < j {
      LessIrreflexive(s[i]);
    } else {
      LessIrreflexive(s[j]);
    }
  }

  /**
   * There is exactly one strictly sorted arrangement of a set of terms, so the vocabulary
   * does not depend on how it was computed or on the order the files were read in.
   */
  lemma {:induction false} StrictlySortedUnique(a: seq<Term>, b: seq<Term>)
    requires StrictlySorted(a) && StrictlySorted(b)
    requires forall t :: t in a <==> t in b
    ensures a == b
    decreases |a|
  {
    if a != [] {
      assert a[0] in b;
    }
    if b != [] {
      assert b[0] in a;
    }
    if a != [] && b != [] {
      if a[0] != b[0] {
        assert b[0] in a;
        assert a[0] in b;
        var i :| 0 <= i < |a| && a[i] == b[0];
        var j :| 0 <= j < |b| && b[j] == a[0];
        assert i != 0 && j != 0;
        assert Less(a[0], b[0]) && Less(b[0], a[0]);
        LessAsymmetric(a[0], b[0]);
      }
      forall t ensures t in a[1..] <==> t in b[1..] {
        if t in a[1..] {
          var i :| 1 <= i < |a| && a[i] == t;
          assert Less(a[0], t);
          LessIrreflexive(t);
          assert t in b && t != b[0];
        }
        if t in b[1..] {
          var j :| 1 <= j < |b| && b[j] == t;
          assert Less(b[0], t);
          LessIrreflexive(t);
          assert t in a && t != a[0];
        }
      }
      StrictlySortedUnique(a[1..], b[1..]);
      assert a == [a[0]] + a[1..] && b == [b[0]] + b[1..];
    }
  }
}
