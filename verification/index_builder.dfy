/**
 * IndexBuilder: the indexing run of `handleIndexing`. The files are tokenised, the
 * vocabulary is sorted and de-duplicated, a term-by-file table of raw counts is filled,
 * each file's column is divided by its largest count (the TF table, which is copied out),
 * and each term's row is then scaled in place by its clamped inverse document frequency
 * (the TF-IDF table).
 *
 * The mutable table `newTable` is an `array2<real>`: row i belongs to vocabulary term i and
 * column j to file j, which the JavaScript rows hold at index j + 1 after the term at index 0.
 * The term labels are never written, so they are kept apart in the vocabulary sequence.
 */
module IndexBuilder {
  import opened Terms
  import opened Tokenizer

  /** An uploaded file: its name (the record key) and its text. */
  datatype Document = Document(name: string, text: string)

  /** A table row `[term, ...numbers]`: the term and one weight per file, in corpus order. */
  datatype Row = Row(term: Term, weights: seq<real>)

  /** The two tables an indexing run publishes. */
  datatype Index = Index(tf: seq<Row>, tfidf: seq<Row>)

  /**
   * With no term in any file, `newTable[0]` is undefined and reading its `length`
   * throws, so the run publishes nothing.
   */
  datatype IndexError = EmptyVocabulary

  datatype Result = Success(index: Index) | Failure(error: IndexError)

  // ---------------------------------------------------------------------------------------
  // Step 1: tokenise every file, and collect all tokens

  /** The concatenation of the files' token lists (`tokens = tokens.concat(tks)`). */
  function Flatten(files: seq<seq<Term>>): (tokens: seq<Term>)
    ensures forall t :: t in tokens <==> exists f | 0 <= f < |files| :: t in files[f]
  {
    if files == [] then []
    else
      var init := files[..|files| - 1];
      var tokens := Flatten(init) + files[|files| - 1];
      assert forall t :: t in tokens <==> exists f | 0 <= f < |files| :: t in files[f] by {
        forall t ensures t in tokens <==> exists f | 0 <= f < |files| :: t in files[f] {
          if t in Flatten(init) {
            var f :| 0 <= f < |init| && t in init[f];
            assert files[f] == init[f];
          }
          if exists f | 0 <= f < |files| :: t in files[f] {
            var f :| 0 <= f < |files| && t in files[f];
            if f < |init| {
              assert init[f] == files[f];
            }
          }
        }
      }
      tokens
  }

  /** Each file's token list, in corpus order. */
  function TokenizedCorpus(a: Analyzer, corpus: seq<Document>): (files: seq<seq<Term>>)
    ensures |files| == |corpus|
  {
    seq(|corpus|, f requires 0 <= f < |corpus| => Normalize(a, corpus[f].text))
  }

  /**
   * The tokenising loop: `tokenizedFiles[fn] = tks; tokens = tokens.concat(tks)` for each
   * file in turn.
   */
  method TokenizeFiles(a: Analyzer, corpus: seq<Document>)
    returns (tokenizedFiles: seq<seq<Term>>, tokens: seq<Term>)
    ensures tokenizedFiles == TokenizedCorpus(a, corpus)
    ensures tokens == Flatten(tokenizedFiles)
  {
    tokenizedFiles, tokens := [], [];
    for k := 0 to |corpus|
      invariant |tokenizedFiles| == k
      invariant forall f | 0 <= f < k :: tokenizedFiles[f] == Normalize(a, corpus[f].text)
      invariant tokens == Flatten(tokenizedFiles)
    {
      var tks := Normalize(a, corpus[k].text);
      assert (tokenizedFiles + [tks])[..k] == tokenizedFiles;
      tokenizedFiles := tokenizedFiles + [tks];
      tokens := tokens + tks;
    }
  }

  /** The vocabulary: the distinct tokens of all files, sorted. */
  function Vocabulary(files: seq<seq<Term>>): (vocab: seq<Term>)
    ensures StrictlySorted(vocab)
    ensures forall t :: t in vocab <==> exists f | 0 <= f < |files| :: t in files[f]
  {
    SortedDistinct(Flatten(files))
  }

  // ---------------------------------------------------------------------------------------
  // Tables as values, for the specification

  /** Every row has `cols` entries. */
  ghost predicate IsTable(m: seq<seq<real>>, cols: nat)
  {
    forall i | 0 <= i < |m| :: |m[i]| == cols
  }

  /** Column j of a table. */
  function Column(m: seq<seq<real>>, cols: nat, j: nat): (col: seq<real>)
    requires IsTable(m, cols) && j < cols
    ensures |col| == |m|
  {
    seq(|m|, i requires 0 <= i < |m| => m[i][j])
  }

  /** Step 3: the raw count of vocabulary term i in file j. */
  function CountTable(vocab: seq<Term>, files: seq<seq<Term>>): (m: seq<seq<real>>)
    ensures |m| == |vocab| && IsTable(m, |files|)
  {
    seq(|vocab|, i requires 0 <= i < |vocab| =>
      seq(|files|, j requires 0 <= j < |files| => CountWordInText(vocab[i], files[j]) as real))
  }

  /**
   * `maxCountInFile`: the running maximum of a column, starting from 0, so it is 0 for a
   * column with no positive entry.
   */
  function RunningMax(col: seq<real>): (mx: real)
    ensures mx >= 0.0
    ensures forall i | 0 <= i < |col| :: col[i] <= mx
    ensures mx == 0.0 || exists i | 0 <= i < |col| :: col[i] == mx
  {
    if col == [] then 0.0
    else
      var m := RunningMax(col[..|col| - 1]);
      assert forall i | 0 <= i < |col| - 1 :: col[..|col| - 1][i] == col[i];
      if col[|col| - 1] > m then col[|col| - 1] else m
  }

  /** Step 4 on one column: divide by the column's maximum, unless that maximum is 0. */
  function TfColumn(col: seq<real>): (tf: seq<real>)
    ensures |tf| == |col|
  {
    var mx := RunningMax(col);
    if mx > 0.0 then seq(|col|, i requires 0 <= i < |col| => col[i] / mx) else col
  }

  /** The TF table: every column of m normalised by its maximum. */
  function TfTable(m: seq<seq<real>>, cols: nat): (tf: seq<seq<real>>)
    requires IsTable(m, cols)
    ensures |tf| == |m| && IsTable(tf, cols)
  {
    seq(|m|, i requires 0 <= i < |m| =>
      seq(cols, j requires 0 <= j < cols => TfColumn(Column(m, cols, j))[i]))
  }

  /** `row.slice(1).filter((v) => v > 0).length`: the number of files with a positive weight. */
  function DocFrequency(row: seq<real>): (df: nat)
    ensures df <= |row|
    ensures df == 0 <==> forall i | 0 <= i < |row| :: row[i] <= 0.0
  {
    if row == [] then 0
    else
      var init := row[..|row| - 1];
      assert forall i | 0 <= i < |init| :: init[i] == row[i];
      DocFrequency(init) + if row[|row| - 1] > 0.0 then 1 else 0
  }

  /** `Math.max(0, Math.log2(numDocs / df))`. */
  function IdfWeight(log2: real -> real, numDocs: nat, df: nat): (w: real)
    requires df > 0
    ensures w >= 0.0
  {
    var idf := log2(numDocs as real / df as real);
    if idf < 0.0 then 0.0 else idf
  }

  /** Step 5 on one row: scale by the IDF weight, or leave the row alone when no file has the term. */
  function TfIdfRow(row: seq<real>, log2: real -> real, numDocs: nat): (r: seq<real>)
    ensures |r| == |row|
  {
    var df := DocFrequency(row);
    if df == 0 then row else Scaled(row, IdfWeight(log2, numDocs, df))
  }

  /** Every entry of row multiplied by w. */
  function Scaled(row: seq<real>, w: real): (r: seq<real>)
    ensures |r| == |row| && forall i | 0 <= i < |row| :: r[i] == row[i] * w
  {
    seq(|row|, i requires 0 <= i < |row| => row[i] * w)
  }

  function TfIdfTable(tf: seq<seq<real>>, log2: real -> real, numDocs: nat): (r: seq<seq<real>>)
    ensures |r| == |tf|
  {
    seq(|tf|, i requires 0 <= i < |tf| => TfIdfRow(tf[i], log2, numDocs))
  }

  /** Puts the term back in front of each row. */
  function Labelled(vocab: seq<Term>, m: seq<seq<real>>): (rows: seq<Row>)
    requires |m| == |vocab|
    ensures |rows| == |vocab|
  {
    seq(|vocab|, i requires 0 <= i < |vocab| => Row(vocab[i], m[i]))
  }

  /** What one indexing run publishes for a corpus, or why it publishes nothing. */
  function IndexOf(a: Analyzer, log2: real -> real, corpus: seq<Document>): Result
  {
    var files := TokenizedCorpus(a, corpus);
    var vocab := Vocabulary(files);
    if vocab == [] then Failure(EmptyVocabulary)
    else
      var tf := TfTable(CountTable(vocab, files), |files|);
      Success(Index(Labelled(vocab, tf), Labelled(vocab, TfIdfTable(tf, log2, |corpus|))))
  }

  // ---------------------------------------------------------------------------------------
  // The table in place

  /** Column j of the array. */
  ghost function ColumnOf(t: array2<real>, j: nat): (col: seq<real>)
    requires j < t.Length1
    reads t
    ensures |col| == t.Length0
  {
    seq(t.Length0, i requires 0 <= i < t.Length0 reads t => t[i, j])
  }

  /** Row i of the array. */
  ghost function RowOf(t: array2<real>, i: nat): (row: seq<real>)
    requires i < t.Length0
    reads t
    ensures |row| == t.Length1
  {
    seq(t.Length1, j requires 0 <= j < t.Length1 reads t => t[i, j])
  }

  /** Step 3: `newTable`, one row per vocabulary term holding its count in each file. */
  method FillCounts(vocab: seq<Term>, files: seq<seq<Term>>) returns (t: array2<real>)
    ensures fresh(t)
    ensures t.Length0 == |vocab| && t.Length1 == |files|
    ensures forall i, j | 0 <= i < |vocab| && 0 <= j < |files| ::
              t[i, j] == CountWordInText(vocab[i], files[j]) as real
  {
    t := new real[|vocab|, |files|];
    for i := 0 to |vocab|
      invariant forall i', j | 0 <= i' < i && 0 <= j < |files| ::
                  t[i', j] == CountWordInText(vocab[i'], files[j]) as real
    {
      for j := 0 to |files|
        invariant forall i', j' | 0 <= i' < i && 0 <= j' < |files| ::
                    t[i', j'] == CountWordInText(vocab[i'], files[j']) as real
        invariant forall j' | 0 <= j' < j :: t[i, j'] == CountWordInText(vocab[i], files[j']) as real
      {
        t[i, j] := CountWordInText(vocab[i], files[j]) as real;
      }
    }
  }

  /** The first inner loop of step 4: the largest entry of column j, or 0. */
  method MaxCountInFile(t: array2<real>, j: nat) returns (maxCountInFile: real)
    requires j < t.Length1
    ensures maxCountInFile == RunningMax(ColumnOf(t, j))
  {
    ghost var col := ColumnOf(t, j);
    maxCountInFile := 0.0;
    for w := 0 to t.Length0
      invariant maxCountInFile == RunningMax(col[..w])
    {
      assert col[..w + 1][..w] == col[..w];
      if t[w, j] > maxCountInFile {
        maxCountInFile := t[w, j];
      }
    }
    assert col[..t.Length0] == col;
  }

  /** Step 4 for one file: normalise column j; nothing outside that column changes. */
  method NormalizeColumn(t: array2<real>, j: nat)
    requires j < t.Length1
    modifies t
    ensures ColumnOf(t, j) == TfColumn(old(ColumnOf(t, j)))
    ensures forall i, k | 0 <= i < t.Length0 && 0 <= k < t.Length1 && k != j :: t[i, k] == old(t[i, k])
  {
    var maxCountInFile := MaxCountInFile(t, j);
    if maxCountInFile > 0.0 {
      for w := 0 to t.Length0
        invariant forall i | 0 <= i < w :: t[i, j] == old(t[i, j]) / maxCountInFile
        invariant forall i | w <= i < t.Length0 :: t[i, j] == old(t[i, j])
        invariant forall i, k | 0 <= i < t.Length0 && 0 <= k < t.Length1 && k != j :: t[i, k] == old(t[i, k])
      {
        t[w, j] := t[w, j] / maxCountInFile;
      }
    }
  }

  /** Step 4: normalise every file's column. */
  method NormalizeColumns(t: array2<real>)
    modifies t
    ensures forall i, j | 0 <= i < t.Length0 && 0 <= j < t.Length1 ::
              t[i, j] == TfColumn(old(ColumnOf(t, j)))[i]
  {
    for j := 0 to t.Length1
      invariant forall i, k | 0 <= i < t.Length0 && 0 <= k < j ::
                  t[i, k] == TfColumn(old(ColumnOf(t, k)))[i]
      invariant forall i, k | 0 <= i < t.Length0 && j <= k < t.Length1 :: t[i, k] == old(t[i, k])
    {
      assert ColumnOf(t, j) == old(ColumnOf(t, j));
      NormalizeColumn(t, j);
    }
  }

  /** The file count of row w: how many of its entries are positive. */
  method NumDocsContainingTerm(t: array2<real>, w: nat) returns (df: nat)
    requires w < t.Length0
    ensures df == DocFrequency(RowOf(t, w))
  {
    ghost var row := RowOf(t, w);
    df := 0;
    for j := 0 to t.Length1
      invariant df == DocFrequency(row[..j])
    {
      assert row[..j + 1][..j] == row[..j];
      if t[w, j] > 0.0 {
        df := df + 1;
      }
    }
    assert row[..t.Length1] == row;
  }

  /** The innermost loop of step 5: multiply every entry of row w by idf. */
  method ScaleRow(t: array2<real>, w: nat, idf: real)
    requires w < t.Length0
    modifies t
    ensures forall k | 0 <= k < t.Length1 :: t[w, k] == old(t[w, k]) * idf
    ensures forall i, k | 0 <= i < t.Length0 && 0 <= k < t.Length1 && i != w :: t[i, k] == old(t[i, k])
  {
    for k := 0 to t.Length1
      invariant forall k' | 0 <= k' < k :: t[w, k'] == old(t[w, k']) * idf
      invariant forall k' | k <= k' < t.Length1 :: t[w, k'] == old(t[w, k'])
      invariant forall i, k' | 0 <= i < t.Length0 && 0 <= k' < t.Length1 && i != w :: t[i, k'] == old(t[i, k'])
    {
      t[w, k] := t[w, k] * idf;
    }
  }

  /** Step 5 for one term: scale row w by its IDF weight, unless no file has the term. */
  method IdfRow(t: array2<real>, w: nat, log2: real -> real, numDocs: nat)
    requires w < t.Length0
    modifies t
    ensures forall k | 0 <= k < t.Length1 :: t[w, k] == TfIdfRow(old(RowOf(t, w)), log2, numDocs)[k]
    ensures forall i, k | 0 <= i < t.Length0 && 0 <= k < t.Length1 && i != w :: t[i, k] == old(t[i, k])
  {
    ghost var row := RowOf(t, w);
    ghost var target := TfIdfRow(row, log2, numDocs);
    var numDocsContainingTerm := NumDocsContainingTerm(t, w);
    if numDocsContainingTerm > 0 {
      var idf := log2(numDocs as real / numDocsContainingTerm as real);
      idf := if idf < 0.0 then 0.0 else idf;
      assert target == seq(|row|, k requires 0 <= k < |row| => row[k] * idf);
      assert forall k | 0 <= k < t.Length1 :: target[k] == t[w, k] * idf;
      ScaleRow(t, w, idf);
    } else {
      assert target == row;
    }
  }

  /** Step 5: scale each term's row by its IDF weight, skipping terms no file contains. */
  method ApplyIdf(t: array2<real>, log2: real -> real, numDocs: nat)
    modifies t
    ensures forall i, j | 0 <= i < t.Length0 && 0 <= j < t.Length1 ::
              t[i, j] == TfIdfRow(old(RowOf(t, i)), log2, numDocs)[j]
  {
    for word := 0 to t.Length0
      invariant forall i, j | 0 <= i < word && 0 <= j < t.Length1 ::
                  t[i, j] == TfIdfRow(old(RowOf(t, i)), log2, numDocs)[j]
      invariant forall i, j | word <= i < t.Length0 && 0 <= j < t.Length1 :: t[i, j] == old(t[i, j])
    {
      assert RowOf(t, word) == old(RowOf(t, word));
      IdfRow(t, word, log2, numDocs);
    }
  }

  /** `newTable.map((row) => [...row])`: a copy of the table as values, terms in front. */
  method Snapshot(vocab: seq<Term>, t: array2<real>) returns (rows: seq<Row>)
    requires |vocab| == t.Length0
    ensures |rows| == |vocab|
    ensures forall i | 0 <= i < |rows| :: rows[i] == Row(vocab[i], RowOf(t, i))
  {
    rows := seq(|vocab|, i requires 0 <= i < |vocab| reads t =>
      Row(vocab[i], seq(t.Length1, j requires 0 <= j < t.Length1 reads t => t[i, j])));
  }

  /** Steps 3 and 4: the count table, then every file's column normalised: the TF table. */
  method TfStage(vocab: seq<Term>, files: seq<seq<Term>>) returns (t: array2<real>)
    ensures fresh(t)
    ensures t.Length0 == |vocab| && t.Length1 == |files|
    ensures forall i | 0 <= i < |vocab| :: RowOf(t, i) == TfTable(CountTable(vocab, files), |files|)[i]
  {
    t := FillCounts(vocab, files);
    ghost var counts := CountTable(vocab, files);
    forall j | 0 <= j < |files| ensures ColumnOf(t, j) == Column(counts, |files|, j) {
    }
    NormalizeColumns(t);
  }

  /**
   * The indexing body of `handleIndexing`, without its progress and state setters: the
   * result is what the run publishes with `setTableTF` and `setTableTFIDF`.
   */
  method BuildIndex(a: Analyzer, log2: real -> real, corpus: seq<Document>) returns (r: Result)
    ensures r == IndexOf(a, log2, corpus)
  {
    var tokenizedFiles, tokens := TokenizeFiles(a, corpus);
    var vocab := SortedDistinct(tokens);
    var newTable := TfStage(vocab, tokenizedFiles);
    if |vocab| == 0 {
      return Failure(EmptyVocabulary);
    }
    ghost var tfCells := TfTable(CountTable(vocab, tokenizedFiles), |tokenizedFiles|);
    var tableTF := Snapshot(vocab, newTable);
    assert tableTF == Labelled(vocab, tfCells);
    label Tf:
    ApplyIdf(newTable, log2, |corpus|);
    ghost var tfidfCells := TfIdfTable(tfCells, log2, |corpus|);
    forall i | 0 <= i < |vocab| ensures RowOf(newTable, i) == tfidfCells[i] {
      assert old@Tf(RowOf(newTable, i)) == tfCells[i];
    }
    var tableTFIDF := Snapshot(vocab, newTable);
    assert tableTFIDF == Labelled(vocab, tfidfCells);
    r := Success(Index(tableTF, tableTFIDF));
  }
}
