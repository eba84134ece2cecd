/**
 * QueryVectorizer: `calculateQueryTf`, which turns the search box text into a sparse
 * vector of term frequencies, each token's count divided by the largest count.
 */
module QueryVectorizer {
  import opened Terms
  import opened Vectors
  import opened Tokenizer

  /**
   * The `maxFreq` the `forEach` ends with: after each token, the larger of the previous
   * value and that token's count so far.
   */
  function MaxFreq(tokens: seq<Term>): nat
  {
    if tokens == [] then 0
    else
      var prev := MaxFreq(tokens[..|tokens| - 1]);
      var c := CountWordInText(tokens[|tokens| - 1], tokens);
      if prev > c then prev else c
  }

  /**
   * The running maximum is the largest count of any token, reached by some token, and
   * 0 only for an empty token list.
   */
  lemma {:induction false} MaxFreqIsMax(tokens: seq<Term>)
    ensures forall t | t in tokens :: CountWordInText(t, tokens) <= MaxFreq(tokens)
    ensures tokens == [] <==> MaxFreq(tokens) == 0
    ensures tokens != [] ==> exists t | t in tokens :: CountWordInText(t, tokens) == MaxFreq(tokens)
  {
    if tokens != [] {
      var init := tokens[..|tokens| - 1];
      var last := tokens[|tokens| - 1];
      MaxFreqIsMax(init);
      var prev := MaxFreq(init);
      assert tokens == init + [last];
      forall t ensures CountWordInText(t, tokens) == CountWordInText(t, init) + if t == last then 1 else 0 {
        CountAppend(t, init, last);
      }
      if prev > CountWordInText(last, tokens) {
        var t :| t in init && CountWordInText(t, init) == prev;
        assert CountWordInText(t, tokens) == prev;
      }
    }
  }

  /**
   * The query vector of a token list: one entry per distinct token, its count divided by
   * the largest count, so every weight lies in (0, 1] and exactly the most frequent tokens weigh 1.
   */
  function QueryTf(tokens: seq<Term>): (tf: Vector)
    ensures forall t :: t in tf <==> t in tokens
    ensures forall t | t in tf :: 0.0 < tf[t] <= 1.0
    ensures tokens != [] ==> exists t | t in tf :: tf[t] == 1.0
    ensures forall t | t in tf ::
              tf[t] == 1.0 <==> forall s | s in tokens :: CountWordInText(s, tokens) <= CountWordInText(t, tokens)
  {
    var counts, mx := CountsOf(tokens), MaxFreq(tokens);
    MaxFreqIsMax(tokens);
    var tf := map t | t in counts :: counts[t] as real / mx as real;
    assert forall t | t in tf :: 0.0 < tf[t] <= 1.0 by {
      forall t | t in tf ensures 0.0 < tf[t] <= 1.0 {
        Fraction(CountWordInText(t, tokens) as real, mx as real);
      }
    }
    assert forall t | t in tf ::
        tf[t] == 1.0 <==> forall s | s in tokens :: CountWordInText(s, tokens) <= CountWordInText(t, tokens) by {
      forall t | t in tf
        ensures tf[t] == 1.0 <==> forall s | s in tokens :: CountWordInText(s, tokens) <= CountWordInText(t, tokens)
      {
        var c := CountWordInText(t, tokens);
        Fraction(c as real, mx as real);
        if forall s | s in tokens :: CountWordInText(s, tokens) <= c {
          var u :| u in tokens && CountWordInText(u, tokens) == mx;
          assert mx <= c;
        }
      }
    }
    assert tokens != [] ==> exists t | t in tf :: tf[t] == 1.0 by {
      if tokens != [] {
        var t :| t in tokens && CountWordInText(t, tokens) == mx;
        Fraction(mx as real, mx as real);
        assert tf[t] == 1.0;
      }
    }
    tf
  }

  /** The `counts` record for a token list: each distinct token and its number of occurrences. */
  function CountsOf(tokens: seq<Term>): (counts: map<Term, nat>)
    ensures forall t :: t in counts <==> t in tokens
  {
    map t | t in tokens :: CountWordInText(t, tokens)
  }

  /** One more token adds 1 to its count, starting from 0 when it is new. */
  lemma CountsOfAppend(tokens: seq<Term>, tok: Term)
    ensures CountsOf(tokens + [tok]) ==
            CountsOf(tokens)[tok := (if tok in CountsOf(tokens) then CountsOf(tokens)[tok] else 0) + 1]
  {
    var before, after := CountsOf(tokens), CountsOf(tokens + [tok]);
    forall t | t in after ensures after[t] == CountWordInText(t, tokens) + if t == tok then 1 else 0 {
      CountAppend(t, tokens, tok);
    }
  }

  /**
   * The `tokens.forEach` of `calculateQueryTf`: `counts[tok] = (counts[tok] || 0) + 1` and
   * `maxFreq = Math.max(maxFreq, counts[tok])` for each token in turn.
   */
  method CountTokens(tokens: seq<Term>) returns (counts: map<Term, nat>, maxFreq: nat)
    ensures counts == CountsOf(tokens)
    ensures maxFreq == MaxFreq(tokens)
  {
    counts, maxFreq := map[], 0;
    for k := 0 to |tokens|
      invariant counts == CountsOf(tokens[..k])
      invariant maxFreq == MaxFreq(tokens[..k])
    {
      var tok := tokens[k];
      ghost var seen := tokens[..k];
      assert tokens[..k + 1] == seen + [tok];
      CountsOfAppend(seen, tok);
      counts := counts[tok := (if tok in counts then counts[tok] else 0) + 1];
      assert (seen + [tok])[..k] == seen;
      maxFreq := if maxFreq > counts[tok] then maxFreq else counts[tok];
    }
    assert tokens[..|tokens|] == tokens;
  }

  /** A query's term-frequency vector: stem, drop stop words, count, divide by the largest count. */
  method CalculateQueryTf(a: Analyzer, query: string) returns (tf: Vector)
    ensures tf == QueryTf(Normalize(a, query))
  {
    var tokens := a.tokenizeAndStem(query);
    tokens := RemoveStopwords(tokens, a.isStopword);
    var counts, maxFreq := CountTokens(tokens);
    tf := map[];
    if maxFreq > 0 {
      tf := DivideCounts(counts, maxFreq);
    } else {
      MaxFreqIsMax(tokens);
    }
  }

  /** `Object.keys(counts).forEach((tok) => { tf[tok] = counts[tok] / maxFreq })`. */
  method DivideCounts(counts: map<Term, nat>, maxFreq: nat) returns (tf: Vector)
    requires maxFreq > 0
    ensures tf == map t | t in counts :: counts[t] as real / maxFreq as real
  {
    tf := map[];
    var pending := counts.Keys;
    while pending != {}
      invariant pending <= counts.Keys
      invariant forall t :: t in tf <==> t in counts && t !in pending
      invariant forall t | t in tf :: tf[t] == counts[t] as real / maxFreq as real
      decreases |pending|
    {
      var tok :| tok in pending;
      tf := tf[tok := counts[tok] as real / maxFreq as real];
      pending := pending - {tok};
    }
  }
}
