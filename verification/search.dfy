/**
 * Search: `calculateDotProductSim`, `calculateCosSim` and `handleSearch`. Each file's
 * column of the TF table becomes a document vector, every file is scored against the
 * query vector, and the (file, score) pairs are sorted by decreasing score.
 */
module Search {
  import opened Terms
  import opened Vectors
  import opened Tokenizer
  import opened IndexBuilder
  import opened IndexProperties
  import opened QueryVectorizer
  import opened Similarity

  // ---------------------------------------------------------------------------------------
  // Document vectors

  /** Row holds a positive weight for file j (`typeof val === "number" && val > 0`). */
  predicate HasWeight(row: Row, j: nat)
  {
    j < |row.weights| && row.weights[j] > 0.0
  }

  /**
   * `docObj` after `tableTF.forEach` has visited the rows in order: each row with a
   * positive weight for file j sets its term to that weight.
   */
  function ColumnVector(table: seq<Row>, j: nat): Vector
  {
    if table == [] then map[]
    else
      var row := table[|table| - 1];
      var d := ColumnVector(table[..|table| - 1], j);
      if HasWeight(row, j) then d[row.term := row.weights[j]] else d
  }

  /** The document vector holds exactly the terms of the rows with a positive weight, all positive. */
  lemma {:induction false} ColumnVectorKeys(table: seq<Row>, j: nat)
    ensures Positive(ColumnVector(table, j))
    ensures forall t :: t in ColumnVector(table, j) <==>
                        exists i | 0 <= i < |table| :: table[i].term == t && HasWeight(table[i], j)
  {
    if table != [] {
      var init := table[..|table| - 1];
      ColumnVectorKeys(init, j);
      assert forall i | 0 <= i < |init| :: init[i] == table[i];
    }
  }

  /** When no two rows share a term, each such term carries its row's weight. */
  lemma {:induction false} ColumnVectorValues(table: seq<Row>, j: nat)
    requires forall i, k | 0 <= i < k < |table| :: table[i].term != table[k].term
    ensures forall i | 0 <= i < |table| && HasWeight(table[i], j) ::
              table[i].term in ColumnVector(table, j) &&
              ColumnVector(table, j)[table[i].term] == table[i].weights[j]
  {
    if table != [] {
      var init := table[..|table| - 1];
      ColumnVectorValues(init, j);
      assert forall i | 0 <= i < |init| :: init[i] == table[i];
    }
  }

  /** The `tableTF.forEach` that builds `docObj` for file j. */
  method DocumentVector(table: seq<Row>, j: nat) returns (docObj: Vector)
    ensures docObj == ColumnVector(table, j)
  {
    docObj := map[];
    for r := 0 to |table|
      invariant docObj == ColumnVector(table[..r], j)
    {
      assert table[..r + 1][..r] == table[..r];
      var row := table[r];
      if j < |row.weights| && row.weights[j] > 0.0 {
        docObj := docObj[row.term := row.weights[j]];
      }
    }
    assert table[..|table|] == table;
  }

  // ---------------------------------------------------------------------------------------
  // Sorting the results

  /** A result entry `[fileName, score]`. */
  datatype Hit = Hit(file: string, score: real)

  predicate NonIncreasing(hits: seq<Hit>)
  {
    forall i, k | 0 <= i < k < |hits| :: hits[i].score >= hits[k].score
  }

  /** Puts h in front of the first entry whose score it reaches. */
  function InsertByScore(h: Hit, sorted: seq<Hit>): seq<Hit>
  {
    if sorted == [] || h.score >= sorted[0].score then [h] + sorted
    else [sorted[0]] + InsertByScore(h, sorted[1..])
  }

  /** Inserting adds exactly h to the entries. */
  lemma {:induction false} InsertByScorePermutes(h: Hit, sorted: seq<Hit>)
    ensures multiset(InsertByScore(h, sorted)) == multiset(sorted) + multiset{h}
  {
    if sorted != [] && h.score < sorted[0].score {
      InsertByScorePermutes(h, sorted[1..]);
      assert sorted == [sorted[0]] + sorted[1..];
    }
  }

  /** Inserting into a list sorted by decreasing score keeps it sorted. */
  lemma {:induction false} InsertByScoreSorted(h: Hit, sorted: seq<Hit>)
    requires NonIncreasing(sorted)
    ensures NonIncreasing(InsertByScore(h, sorted))
    ensures InsertByScore(h, sorted)[0] == h || (sorted != [] && InsertByScore(h, sorted)[0] == sorted[0])
  {
    if sorted != [] && h.score < sorted[0].score {
      var rest := InsertByScore(h, sorted[1..]);
      InsertByScoreSorted(h, sorted[1..]);
      assert sorted[0].score >= rest[0].score;
    }
  }

  /**
   * `.sort((a, b) => b[1] - a[1])`: the entries by decreasing score. The order among equal
   * scores is not claimed to match the source's, which depends on `Object.entries` key order.
   */
  function SortByScore(hits: seq<Hit>): (r: seq<Hit>)
    ensures NonIncreasing(r)
    ensures multiset(r) == multiset(hits)
  {
    if hits == [] then []
    else
      var rest := SortByScore(hits[1..]);
      InsertByScoreSorted(hits[0], rest);
      InsertByScorePermutes(hits[0], rest);
      assert hits == [hits[0]] + hits[1..];
      InsertByScore(hits[0], rest)
  }

  // ---------------------------------------------------------------------------------------
  // Ranking

  /** The two search buttons. */
  datatype Metric = DotProduct | CosineSimilarity

  function Score(metric: Metric, sqrt: real -> real, q: Vector, d: Vector): real
  {
    match metric
    case DotProduct => Dot(q, d)
    case CosineSimilarity => Cosine(sqrt, q, d)
  }

  /** `tableTF[0].length - 1`: the number of weights in the first row, 0 for an empty table. */
  function NumFiles(table: seq<Row>): nat
  {
    if table == [] then 0 else |table[0].weights|
  }

  /** The `results` entries in file order: file f's name and the score of its document vector. */
  function Scores(metric: Metric, sqrt: real -> real, q: Vector, table: seq<Row>, names: seq<string>): (hits: seq<Hit>)
    requires NumFiles(table) <= |names|
    ensures |hits| == NumFiles(table)
  {
    seq(NumFiles(table), f requires 0 <= f < NumFiles(table) =>
      Hit(names[f], Score(metric, sqrt, q, ColumnVector(table, f))))
  }

  /** The file names of `Object.keys(uploadedFiles)` are distinct. */
  predicate DistinctNames(names: seq<string>)
  {
    forall f, g | 0 <= f < g < |names| :: names[f] != names[g]
  }

  /**
   * `calculateDotProductSim` and `calculateCosSim`, which differ only in the score: one
   * entry per file of the table, sorted by decreasing score, and none for an empty table.
   */
  method Rank(metric: Metric, sqrt: real -> real, q: Vector, table: seq<Row>, names: seq<string>)
    returns (results: seq<Hit>)
    requires NumFiles(table) <= |names| && DistinctNames(names)
    ensures results == SortByScore(Scores(metric, sqrt, q, table, names))
    ensures |results| == NumFiles(table) && (table == [] ==> results == [])
    ensures NonIncreasing(results)
    ensures multiset(results) == multiset(Scores(metric, sqrt, q, table, names))
  {
    if |table| == 0 {
      return [];
    }
    var numFiles := |table[0].weights|;
    ghost var hits := Scores(metric, sqrt, q, table, names);
    var entries: seq<Hit> := [];
    for fi := 0 to numFiles
      invariant entries == hits[..fi]
    {
      var docObj := DocumentVector(table, fi);
      var score: real;
      match metric {
        case DotProduct =>
          score := DocDotProdSim(q, docObj);
        case CosineSimilarity =>
          score := DocCosineSimilarity(sqrt, q, docObj);
      }
      entries := entries + [Hit(names[fi], score)];
    }
    assert entries == hits;
    results := SortByScore(entries);
    assert |multiset(results)| == |multiset(hits)|;
  }

  /** `handleSearch`: vectorise the query, then rank the files with the chosen score. */
  method HandleSearch(a: Analyzer, sqrt: real -> real, metric: Metric, query: string,
                      table: seq<Row>, names: seq<string>) returns (results: seq<Hit>)
    requires NumFiles(table) <= |names| && DistinctNames(names)
    ensures results == SortByScore(Scores(metric, sqrt, QueryTf(Normalize(a, query)), table, names))
  {
    var queryTF := CalculateQueryTf(a, query);
    results := Rank(metric, sqrt, queryTF, table, names);
  }

  // ---------------------------------------------------------------------------------------
  // What a search returns

  /** A query made only of stop words scores every file 0, with either score. */
  lemma StopwordOnlyQuery(a: Analyzer, sqrt: real -> real, metric: Metric, query: string,
                          table: seq<Row>, names: seq<string>)
    requires NumFiles(table) <= |names|
    requires Normalize(a, query) == []
    ensures var results := SortByScore(Scores(metric, sqrt, QueryTf(Normalize(a, query)), table, names));
      forall i | 0 <= i < |results| :: results[i].score == 0.0
  {
    var q := QueryTf(Normalize(a, query));
    assert q == map[];
    var hits := Scores(metric, sqrt, q, table, names);
    forall f | 0 <= f < |hits| ensures hits[f].score == 0.0 {
      DotEmpty(q, ColumnVector(table, f));
      CosineEmpty(sqrt, q, ColumnVector(table, f));
    }
    var results := SortByScore(hits);
    forall i | 0 <= i < |results| ensures results[i].score == 0.0 {
      assert results[i] in multiset(hits);
    }
  }

  /**
   * A table whose terms are distinct, which has a weight for file j in every row, which
   * is positive exactly for the given tokens, and which has a row for each of those
   * tokens: file j's document vector holds exactly those tokens, with their rows' weights.
   */
  lemma ColumnVectorOfTokens(rows: seq<Row>, j: nat, tokens: seq<Term>)
    requires forall i, k | 0 <= i < k < |rows| :: rows[i].term != rows[k].term
    requires forall i | 0 <= i < |rows| :: j < |rows[i].weights| && (rows[i].weights[j] > 0.0 <==> rows[i].term in tokens)
    requires forall t | t in tokens :: t in RowTerms(rows)
    ensures var d := ColumnVector(rows, j);
      Positive(d) &&
      (forall t :: t in d <==> t in tokens) &&
      forall i | 0 <= i < |rows| && rows[i].term in d :: d[rows[i].term] == rows[i].weights[j]
  {
    var d := ColumnVector(rows, j);
    ColumnVectorKeys(rows, j);
    ColumnVectorValues(rows, j);
    forall t | t in tokens ensures t in d {
      var i :| 0 <= i < |rows| && RowTerms(rows)[i] == t;
      assert HasWeight(rows[i], j);
    }
  }

  /**
   * On a published TF table, file j's document vector holds exactly the file's tokens,
   * each with its positive TF weight.
   */
  lemma DocumentTerms(a: Analyzer, log2: real -> real, corpus: seq<Document>, j: nat)
    requires IndexOf(a, log2, corpus).Success?
    requires j < |corpus|
    ensures var rows := IndexOf(a, log2, corpus).index.tf;
      var d := ColumnVector(rows, j);
      Positive(d) &&
      (forall t :: t in d <==> t in Normalize(a, corpus[j].text)) &&
      forall i | 0 <= i < |rows| && rows[i].term in d :: d[rows[i].term] == rows[i].weights[j]
  {
    var rows := IndexOf(a, log2, corpus).index.tf;
    var tokens := Normalize(a, corpus[j].text);
    IndexShape(a, log2, corpus);
    TfWeightsOfFile(a, log2, corpus, j);
    forall i, k | 0 <= i < k < |rows| ensures rows[i].term != rows[k].term {
      StrictlySortedDistinct(RowTerms(rows), i, k);
    }
    assert forall t | t in tokens :: t in RowTerms(rows);
    ColumnVectorOfTokens(rows, j, tokens);
  }

  /**
   * On a published TF table, a file scores 0 exactly when it shares no token with the
   * query, with the dot product and, given a square root that is positive on positive
   * numbers, with the cosine.
   */
  lemma ScoreZeroIffNoSharedToken(a: Analyzer, log2: real -> real, sqrt: real -> real, metric: Metric,
                                  corpus: seq<Document>, names: seq<string>, query: string, j: nat)
    requires IndexOf(a, log2, corpus).Success?
    requires |corpus| <= |names| && j < |corpus|
    requires metric == CosineSimilarity ==> forall x: real | x > 0.0 :: sqrt(x) > 0.0
    ensures var rows := IndexOf(a, log2, corpus).index.tf;
      NumFiles(rows) == |corpus| &&
      (Scores(metric, sqrt, QueryTf(Normalize(a, query)), rows, names)[j].score == 0.0 <==>
       forall t | t in Normalize(a, query) :: t !in Normalize(a, corpus[j].text))
  {
    var rows := IndexOf(a, log2, corpus).index.tf;
    IndexShape(a, log2, corpus);
    DocumentTerms(a, log2, corpus, j);
    var q := QueryTf(Normalize(a, query));
    var d := ColumnVector(rows, j);
    assert Positive(q);
    match metric {
      case DotProduct =>
        DotZeroIffDisjoint(q, d);
      case CosineSimilarity =>
        CosineZeroIffDisjoint(sqrt, q, d);
    }
  }

  // ---------------------------------------------------------------------------------------
  // The query and the documents are normalised by the same rule

  /**
   * The query vector is the TF column the indexer would compute for the query as a one-file
   * corpus, over any vocabulary that holds the query's tokens: a term has a query weight
   * exactly when its TF weight is positive, and then the two weights are equal.
   */
  lemma QueryTfIsTfColumn(tokens: seq<Term>, vocab: seq<Term>, i: nat)
    requires forall t | t in tokens :: t in vocab
    requires i < |vocab|
    ensures vocab[i] in QueryTf(tokens) <==> TfTable(CountTable(vocab, [tokens]), 1)[i][0] > 0.0
    ensures vocab[i] in QueryTf(tokens) ==> QueryTf(tokens)[vocab[i]] == TfTable(CountTable(vocab, [tokens]), 1)[i][0]
  {
    var counts := CountTable(vocab, [tokens]);
    var col := Column(counts, 1, 0);
    assert TfTable(counts, 1)[i][0] == TfColumn(col)[i];
    assert col[i] == CountWordInText(vocab[i], tokens) as real;
    QueryMaxIsColumnMax(tokens, vocab);
    var mx := RunningMax(col);
    if mx > 0.0 {
      Fraction(col[i], mx);
    } else {
      MaxFreqIsMax(tokens);
    }
  }

  /** Over a vocabulary holding the query's tokens, the query's `maxFreq` is the column maximum. */
  lemma QueryMaxIsColumnMax(tokens: seq<Term>, vocab: seq<Term>)
    requires forall t | t in tokens :: t in vocab
    ensures RunningMax(Column(CountTable(vocab, [tokens]), 1, 0)) == MaxFreq(tokens) as real
  {
    var col := Column(CountTable(vocab, [tokens]), 1, 0);
    assert forall k | 0 <= k < |vocab| :: col[k] == CountWordInText(vocab[k], tokens) as real;
    var mx := RunningMax(col);
    MaxFreqIsMax(tokens);
    if mx > 0.0 {
      var k :| 0 <= k < |col| && col[k] == mx;
      assert vocab[k] in tokens;
    }
    if tokens != [] {
      var t :| t in tokens && CountWordInText(t, tokens) == MaxFreq(tokens);
      var k :| 0 <= k < |vocab| && vocab[k] == t;
      assert col[k] == MaxFreq(tokens) as real;
    }
  }
}
