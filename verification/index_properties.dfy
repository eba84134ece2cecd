/**
 * What an indexing run publishes: the shape and order of the two tables, when the run
 * fails, the range of the TF weights of each file, and how each TF-IDF row follows from
 * its TF row and the number of files that contain the term.
 */
module IndexProperties {
  import opened Terms
  import opened Tokenizer
  import opened Vectors
  import opened IndexBuilder

  /** The number of token lists that contain t. */
  function FilesContaining(t: Term, files: seq<seq<Term>>): (n: nat)
    ensures n <= |files|
    ensures n > 0 <==> exists f | 0 <= f < |files| :: t in files[f]
  {
    if files == [] then 0
    else
      var init := files[..|files| - 1];
      var n := FilesContaining(t, init);
      assert forall f | 0 <= f < |init| :: init[f] == files[f];
      n + if t in files[|files| - 1] then 1 else 0
  }

  /** A row whose positive entries are exactly the files holding t has t's file count as DocFrequency. */
  lemma {:induction false} DocFrequencyCountsFiles(row: seq<real>, t: Term, files: seq<seq<Term>>)
    requires |row| == |files|
    requires forall j | 0 <= j < |row| :: row[j] > 0.0 <==> t in files[j]
    ensures DocFrequency(row) == FilesContaining(t, files)
  {
    if row != [] {
      var n := |row| - 1;
      assert forall j | 0 <= j < n :: row[..n][j] == row[j] && files[..n][j] == files[j];
      DocFrequencyCountsFiles(row[..n], t, files[..n]);
    }
  }

  /**
   * Normalising a column of counts: every weight lies in [0, 1]; when the column has a
   * positive entry its largest entry becomes exactly 1; otherwise the column is all zero.
   */
  lemma TfColumnBounds(col: seq<real>)
    requires forall i | 0 <= i < |col| :: col[i] >= 0.0
    ensures forall i | 0 <= i < |col| :: 0.0 <= TfColumn(col)[i] <= 1.0
    ensures forall i | 0 <= i < |col| :: TfColumn(col)[i] > 0.0 <==> col[i] > 0.0
    ensures (exists i | 0 <= i < |col| :: col[i] > 0.0) ==>
              exists i | 0 <= i < |col| :: TfColumn(col)[i] == 1.0
    ensures (forall i | 0 <= i < |col| :: col[i] == 0.0) ==>
              forall i | 0 <= i < |col| :: TfColumn(col)[i] == 0.0
  {
    var mx := RunningMax(col);
    if mx > 0.0 {
      var tf := TfColumn(col);
      forall i | 0 <= i < |col| ensures 0.0 <= tf[i] <= 1.0 && (tf[i] > 0.0 <==> col[i] > 0.0) {
        Fraction(col[i], mx);
      }
      var k :| 0 <= k < |col| && col[k] == mx;
      Fraction(col[k], mx);
    }
  }

  /** The terms of a table's rows, in row order. */
  function RowTerms(rows: seq<Row>): (terms: seq<Term>)
    ensures |terms| == |rows| && forall i | 0 <= i < |rows| :: terms[i] == rows[i].term
  {
    seq(|rows|, i requires 0 <= i < |rows| => rows[i].term)
  }

  /** The facts every property below starts from: the published tables as value tables. */
  lemma Unfold(a: Analyzer, log2: real -> real, corpus: seq<Document>)
    returns (files: seq<seq<Term>>, vocab: seq<Term>, counts: seq<seq<real>>, tf: seq<seq<real>>)
    requires IndexOf(a, log2, corpus).Success?
    ensures files == TokenizedCorpus(a, corpus)
    ensures forall f | 0 <= f < |corpus| :: files[f] == Normalize(a, corpus[f].text)
    ensures vocab == Vocabulary(files) && vocab != []
    ensures counts == CountTable(vocab, files)
    ensures tf == TfTable(counts, |files|)
    ensures IndexOf(a, log2, corpus).index == Index(Labelled(vocab, tf), Labelled(vocab, TfIdfTable(tf, log2, |corpus|)))
  {
    files := TokenizedCorpus(a, corpus);
    vocab := Vocabulary(files);
    counts := CountTable(vocab, files);
    tf := TfTable(counts, |files|);
  }

  /**
   * The run fails exactly when no file has a single token left once stop words are
   * removed; in particular it fails on an empty corpus.
   */
  lemma EmptyVocabularyIff(a: Analyzer, log2: real -> real, corpus: seq<Document>)
    ensures IndexOf(a, log2, corpus).Failure? <==>
            forall f | 0 <= f < |corpus| :: Normalize(a, corpus[f].text) == []
  {
    var files := TokenizedCorpus(a, corpus);
    var vocab := Vocabulary(files);
    if vocab != [] {
      assert vocab[0] in vocab;
      var f :| 0 <= f < |files| && vocab[0] in files[f];
      assert Normalize(a, corpus[f].text) != [];
    }
    if f :| 0 <= f < |corpus| && Normalize(a, corpus[f].text) != [] {
      assert files[f][0] in files[f];
      assert files[f][0] in vocab;
    }
  }

  /**
   * Both tables have one row per vocabulary term, in ascending term order, with one
   * weight per file; the row terms are exactly the tokens that occur in some file.
   */
  lemma IndexShape(a: Analyzer, log2: real -> real, corpus: seq<Document>)
    requires IndexOf(a, log2, corpus).Success?
    ensures var ix := IndexOf(a, log2, corpus).index;
      |ix.tf| == |ix.tfidf| > 0 &&
      (forall i | 0 <= i < |ix.tf| ::
         ix.tfidf[i].term == ix.tf[i].term &&
         |ix.tf[i].weights| == |corpus| && |ix.tfidf[i].weights| == |corpus|) &&
      RowTerms(ix.tf) == RowTerms(ix.tfidf) &&
      StrictlySorted(RowTerms(ix.tf)) &&
      (forall t :: t in RowTerms(ix.tf) <==> exists f | 0 <= f < |corpus| :: t in Normalize(a, corpus[f].text))
  {
    var files, vocab, counts, tf := Unfold(a, log2, corpus);
    var ix := IndexOf(a, log2, corpus).index;
    assert RowTerms(ix.tf) == vocab;
    assert RowTerms(ix.tfidf) == vocab;
  }

  /**
   * The TF weights of file j lie in [0, 1]; some term has weight exactly 1 in that file
   * if and only if the file has a token left after stop-word removal, and otherwise all
   * its weights are 0.
   */
  lemma TfWeightsOfFile(a: Analyzer, log2: real -> real, corpus: seq<Document>, j: nat)
    requires IndexOf(a, log2, corpus).Success?
    requires j < |corpus|
    ensures var rows := IndexOf(a, log2, corpus).index.tf;
      (forall i | 0 <= i < |rows| :: 0.0 <= rows[i].weights[j] <= 1.0) &&
      (forall i | 0 <= i < |rows| :: rows[i].weights[j] > 0.0 <==> rows[i].term in Normalize(a, corpus[j].text)) &&
      (Normalize(a, corpus[j].text) != [] <==> exists i | 0 <= i < |rows| :: rows[i].weights[j] == 1.0) &&
      (Normalize(a, corpus[j].text) == [] ==> forall i | 0 <= i < |rows| :: rows[i].weights[j] == 0.0)
  {
    var files, vocab, counts, tf := Unfold(a, log2, corpus);
    var rows := IndexOf(a, log2, corpus).index.tf;
    assert forall i | 0 <= i < |vocab| :: rows[i] == Row(vocab[i], tf[i]);
    TfColumnOfFile(vocab, files, j);
    if files[j] != [] {
      assert files[j][0] in vocab;
    }
  }

  /**
   * Column j of the TF table of a vocabulary: every weight lies in [0, 1] and is positive
   * exactly for the terms of file j; when file j has a vocabulary term, some weight is 1,
   * and otherwise every weight is 0.
   */
  lemma TfColumnOfFile(vocab: seq<Term>, files: seq<seq<Term>>, j: nat)
    requires j < |files|
    ensures var tf := TfTable(CountTable(vocab, files), |files|);
      (forall i | 0 <= i < |vocab| :: 0.0 <= tf[i][j] <= 1.0) &&
      (forall i | 0 <= i < |vocab| :: tf[i][j] > 0.0 <==> vocab[i] in files[j]) &&
      ((exists t | t in files[j] :: t in vocab) ==> exists i | 0 <= i < |vocab| :: tf[i][j] == 1.0) &&
      ((forall t | t in files[j] :: t !in vocab) ==> forall i | 0 <= i < |vocab| :: tf[i][j] == 0.0)
  {
    var counts := CountTable(vocab, files);
    var tf := TfTable(counts, |files|);
    var col := Column(counts, |files|, j);
    assert forall i | 0 <= i < |vocab| :: tf[i][j] == TfColumn(col)[i];
    assert forall i | 0 <= i < |col| :: col[i] == CountWordInText(vocab[i], files[j]) as real;
    TfColumnBounds(col);
    if t :| t in files[j] && t in vocab {
      var i :| 0 <= i < |vocab| && vocab[i] == t;
      assert col[i] > 0.0;
    }
  }

  /**
   * Every published term occurs in at least one file, so its TF-IDF row is its TF row
   * scaled by the clamped IDF weight of the number of files that contain it, and no
   * TF-IDF weight is negative; that number of files is also the number of positive TF
   * weights in the row.
   */
  lemma TfIdfWeights(a: Analyzer, log2: real -> real, corpus: seq<Document>, i: nat)
    requires IndexOf(a, log2, corpus).Success?
    requires i < |IndexOf(a, log2, corpus).index.tf|
    ensures var ix := IndexOf(a, log2, corpus).index;
      var df := FilesContaining(ix.tf[i].term, TokenizedCorpus(a, corpus));
      1 <= df <= |corpus| &&
      DocFrequency(ix.tf[i].weights) == df &&
      ix.tfidf[i].weights == Scaled(ix.tf[i].weights, IdfWeight(log2, |corpus|, df)) &&
      forall j | 0 <= j < |corpus| :: ix.tfidf[i].weights[j] >= 0.0
  {
    var files, vocab, counts, tf := Unfold(a, log2, corpus);
    var ix := IndexOf(a, log2, corpus).index;
    var t := vocab[i];
    assert ix.tf[i] == Row(t, tf[i]);
    assert ix.tfidf[i] == Row(t, TfIdfRow(tf[i], log2, |corpus|));
    forall j | 0 <= j < |corpus| ensures tf[i][j] >= 0.0 && (tf[i][j] > 0.0 <==> t in files[j]) {
      TfWeightsOfFile(a, log2, corpus, j);
      assert ix.tf[i].weights[j] == tf[i][j];
    }
    DocFrequencyCountsFiles(tf[i], t, files);
    assert t in vocab;
    ScaledNonNegative(tf[i], IdfWeight(log2, |corpus|, DocFrequency(tf[i])));
  }

  /** Scaling a row with no negative entry by a non-negative weight leaves no negative entry. */
  lemma ScaledNonNegative(row: seq<real>, w: real)
    requires w >= 0.0
    requires forall j | 0 <= j < |row| :: row[j] >= 0.0
    ensures forall j | 0 <= j < |row| :: Scaled(row, w)[j] >= 0.0
  {
    forall j | 0 <= j < |row| ensures row[j] * w >= 0.0 {
      NonNegativeProduct(row[j], w);
    }
  }

  /**
   * With log2 monotone and log2(1) = 0, the clamp `Math.max(0, …)` never fires for a
   * file count between 1 and the number of files, and a term found in every file gets
   * weight 0.
   */
  lemma IdfClampInactive(log2: real -> real, numDocs: nat, df: nat)
    requires log2(1.0) == 0.0
    requires forall x: real, y: real | 0.0 < x <= y :: log2(x) <= log2(y)
    requires 1 <= df <= numDocs
    ensures IdfWeight(log2, numDocs, df) == log2(numDocs as real / df as real)
    ensures df == numDocs ==> IdfWeight(log2, numDocs, df) == 0.0
  {
    var ratio := numDocs as real / df as real;
    assert ratio * df as real == numDocs as real;
    assert ratio >= 1.0;
    assert log2(1.0) <= log2(ratio);
  }
}
