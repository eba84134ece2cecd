/**
 * Tokenizer: the French stemmer and stop-word list (an external library) behind one
 * narrow interface, the stop-word filter applied to its output, and word counting.
 */
module Tokenizer {
  import opened Terms

  /**
   * The linguistic library, given from outside: `StemmerFr.tokenizeAndStem` splits a
   * text into stemmed tokens and `StopwordsFr.isStopword` recognises stop words.
   */
  datatype Analyzer = Analyzer(tokenizeAndStem: string -> seq<Term>, isStopword: Term -> bool)

  /** `tokens.filter((token) => !isStopword(token))`: keeps the order, drops the stop words. */
  function RemoveStopwords(tokens: seq<Term>, isStopword: Term -> bool): (r: seq<Term>)
    ensures |r| <= |tokens|
    ensures forall t :: t in r <==> t in tokens && !isStopword(t)
  {
    if tokens == [] then []
    else if isStopword(tokens[0]) then RemoveStopwords(tokens[1..], isStopword)
    else [tokens[0]] + RemoveStopwords(tokens[1..], isStopword)
  }

  /** The token list of a text: stem, then drop stop words. */
  function Normalize(a: Analyzer, text: string): seq<Term>
  {
    RemoveStopwords(a.tokenizeAndStem(text), a.isStopword)
  }

  /** `countWordInText`: `tokens.filter((token) => token === word).length`. */
  function CountWordInText(word: Term, tokens: seq<Term>): (n: nat)
    ensures n <= |tokens|
    ensures n > 0 <==> word in tokens
  {
    if tokens == [] then 0
    else
      var n := CountWordInText(word, tokens[..|tokens| - 1]);
      assert tokens == tokens[..|tokens| - 1] + [tokens[|tokens| - 1]];
      n + if tokens[|tokens| - 1] == word then 1 else 0
  }

  /** The count is the word's multiplicity in the token list. */
  lemma {:induction false} CountIsMultiplicity(word: Term, tokens: seq<Term>)
    ensures CountWordInText(word, tokens) == multiset(tokens)[word]
  {
    if tokens != [] {
      var init := tokens[..|tokens| - 1];
      CountIsMultiplicity(word, init);
      assert tokens == init + [tokens[|tokens| - 1]];
      assert multiset(tokens) == multiset(init) + multiset{tokens[|tokens| - 1]};
    }
  }

  /** Counting over a list extended by one token. */
  lemma CountAppend(word: Term, tokens: seq<Term>, t: Term)
    ensures CountWordInText(word, tokens + [t]) ==
            CountWordInText(word, tokens) + if t == word then 1 else 0
  {
    assert (tokens + [t])[..|tokens + [t]| - 1] == tokens;
  }

  /** Dropping stop words keeps every other word's multiplicity and removes the stop words. */
  lemma {:induction false} RemoveStopwordsMultiplicity(tokens: seq<Term>, isStopword: Term -> bool, word: Term)
    ensures multiset(RemoveStopwords(tokens, isStopword))[word] ==
            if isStopword(word) then 0 else multiset(tokens)[word]
  {
    if tokens != [] {
      RemoveStopwordsMultiplicity(tokens[1..], isStopword, word);
      assert tokens == [tokens[0]] + tokens[1..];
      assert multiset(tokens) == multiset{tokens[0]} + multiset(tokens[1..]);
    }
  }

  /** Counts after the filter: a stop word never counts, any other word counts as before. */
  lemma CountAfterFilter(tokens: seq<Term>, isStopword: Term -> bool, word: Term)
    ensures CountWordInText(word, RemoveStopwords(tokens, isStopword)) ==
            if isStopword(word) then 0 else CountWordInText(word, tokens)
  {
    CountIsMultiplicity(word, tokens);
    CountIsMultiplicity(word, RemoveStopwords(tokens, isStopword));
    RemoveStopwordsMultiplicity(tokens, isStopword, word);
  }
}
