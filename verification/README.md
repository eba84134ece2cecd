# TF / TF-IDF text search engine — a verified model

The application is a single-page text search engine over French documents. The user
uploads plain-text files. An indexing run then builds two term-by-file tables:

- a **TF table**: raw token counts, each file's column divided by that file's largest count;
- a **TF-IDF table**: each TF row scaled by the clamped inverse document frequency
  `max(0, log2(N / df))`.

A search turns the query into a term-frequency vector by the same rule (`Search.QueryTfIsTfColumn`). It scores every file
against the TF table, by raw dot product or by cosine similarity, and lists the files by
decreasing score.

The model is split into modules that follow the program's pieces:

| file | module | what it holds |
|---|---|---|
| `terms.dfy` | `Terms` | terms, JavaScript's default string order, the sorted de-duplicated vocabulary |
| `tokenizer.dfy` | `Tokenizer` | the external stemmer and stop-word list as an `Analyzer` value, the stop-word filter, `countWordInText` |
| `vectors.dfy` | `Vectors` | sparse term vectors (`Record<string, number>` as `map<Term, real>`), sums, dot product, sum of squares |
| `index_builder.dfy` | `IndexBuilder` | the indexing run: the table as an `array2<real>` updated in place, specified by value-level functions |
| `index_properties.dfy` | `IndexProperties` | what an indexing run publishes: shape, order, failure, TF bounds, TF-IDF rows |
| `query.dfy` | `QueryVectorizer` | `calculateQueryTf` |
| `similarity.dfy` | `Similarity` | `docDotProdSim`, `docCosineSimilarity` |
| `search.dfy` | `Search` | document vectors, `calculateDotProductSim` / `calculateCosSim`, the sort, `handleSearch` |

Modelling choices:

- **Imperative code stays imperative.** The parts of the source that work step by step are Dafny
  methods with loops, each proved against a value-level specification function. These are
  building and normalising `newTable`, scaling its rows, the `forEach` loops of
  `calculateQueryTf`, the accumulator of `docDotProdSim` and the scoring loops.
- **The table.** `newTable` is an `array2<real>`. Row i belongs to vocabulary term i. Column j
  belongs to file j, which the JavaScript rows keep at index j + 1, behind the term at index 0.
  The term labels are never written, so they are kept in the vocabulary sequence. The TF copy
  and the final TF-IDF table are snapshots of the array as values.
- **Numbers are reals.** `Math.sqrt` and `Math.log2` are function parameters `sqrt` and `log2`.
  A lemma that needs a fact about them (positivity, monotonicity, `log2(1) = 0`) takes it as a
  precondition.
- **Empty vocabulary.** When no file has a token left after stop-word removal, line 154 of
  `app/page.tsx` reads `newTable[0].length` on an empty array. That throws, and the run
  publishes nothing. The model follows the code: `IndexOf` and `BuildIndex` return
  `Failure(EmptyVocabulary)`, and `IndexProperties.EmptyVocabularyIff` states exactly when this
  happens. One might expect an empty corpus to give two empty tables; the code throws instead.
- **Search reads the TF table.** Both scorers read `tableTF`, not the TF-IDF table. The model
  does the same.

## Model

| member | source | states |
|---|---|---|
| Terms.Less | app/page.tsx:140 | defines the default sort order: terms compared character by character, a proper prefix first |
| Terms.LessIrreflexive | app/page.tsx:140 | no term sorts before itself |
| Terms.LessAsymmetric | app/page.tsx:140 | two terms never sort before each other |
| Terms.LessTransitive | app/page.tsx:140 | the default sort order is transitive |
| Terms.LessTotal | app/page.tsx:140 | any two distinct terms are ordered one way or the other |
| Terms.SortedDistinct | app/page.tsx:140 | `[...new Set(tokens)].sort()` is strictly ascending and holds exactly the tokens' values |
| Terms.StrictlySortedDistinct | app/page.tsx:140 | a strictly ascending list has no repeated term |
| Terms.StrictlySortedUnique | app/page.tsx:140 | two strictly ascending lists with the same elements are equal, so the vocabulary depends only on the set of tokens |
| Tokenizer.RemoveStopwords | app/page.tsx:132-133 | the filter keeps exactly the non-stop-word tokens and never lengthens the list |
| Tokenizer.Normalize | app/page.tsx:132-133 | defines a text's token list: the stemmer's tokens with the stop words filtered out, the same pipeline as the query at lines 57-58 |
| Tokenizer.RemoveStopwordsMultiplicity | app/page.tsx:132-133 | the filter keeps the multiplicity of every other word and removes all stop words |
| Tokenizer.CountWordInText | app/page.tsx:29-31 | the count is at most the list length, and positive exactly when the word occurs |
| Tokenizer.CountIsMultiplicity | app/page.tsx:29-31 | the count is the word's multiplicity in the token list |
| Tokenizer.CountAppend | app/page.tsx:29-31 | one more token adds 1 to its own count and leaves other counts alone |
| Tokenizer.CountAfterFilter | app/page.tsx:132-133 | after stop-word removal a stop word counts 0 and every other word counts as before |
| Vectors.SumRemove | app/page.tsx:47-48 | a sum over a key set is the same whichever key is taken first, so the order `reduce` visits values in does not matter |
| Vectors.SumAdd | app/page.tsx:47-48 | adding a new key adds its term to the sum |
| Vectors.SumNonNegative | app/page.tsx:47-48 | a sum of non-negative terms is non-negative |
| Vectors.SumZeroIff | app/page.tsx:47-48 | a sum of non-negative terms is 0 exactly when every term is 0 |
| Vectors.SumCongruent | app/page.tsx:47-48 | sums of two functions that agree on the keys are equal |
| Vectors.Sum | app/page.tsx:47-48 | defines the sum of a function over a key set (the `reduce` and the `+=` loop), folded in ascending key order |
| Vectors.SumOfSquares | app/page.tsx:47-48 | for non-negative weights the squared magnitude is non-negative, and 0 exactly when every weight is 0 |
| Vectors.Dot | app/page.tsx:33-41 | defines the dot product: the sum of `q[t] * d[t]` over the terms present in both vectors |
| Vectors.DotEmpty | app/page.tsx:33-41 | the dot product with an empty query or an empty document is 0 |
| Vectors.DotNonNegative | app/page.tsx:33-41 | the dot product of two non-negative vectors is non-negative |
| Vectors.DotSymmetric | app/page.tsx:33-41 | the dot product does not depend on which vector is the query |
| Vectors.DotDisjoint | app/page.tsx:33-41 | vectors without a common term have dot product 0 |
| Vectors.DotZeroIffDisjoint | app/page.tsx:33-41 | for two positive vectors the dot product is non-negative, and 0 exactly when they share no term |
| IndexBuilder.Flatten | app/page.tsx:135 | a token occurs in the concatenation exactly when it occurs in some file's list |
| IndexBuilder.TokenizedCorpus | app/page.tsx:131-134 | there is one token list per uploaded file |
| IndexBuilder.TokenizeFiles | app/page.tsx:131-136 | the loop yields every file's filtered token list in corpus order, and their concatenation |
| IndexBuilder.Vocabulary | app/page.tsx:140 | the vocabulary is strictly sorted and holds exactly the tokens that occur in some file |
| IndexBuilder.CountTable | app/page.tsx:144-150 | the count table has one row per vocabulary term and one entry per file |
| IndexBuilder.RunningMax | app/page.tsx:156-162 | `maxCountInFile` is non-negative, bounds every entry of the column, and is an entry of the column unless it is 0 |
| IndexBuilder.TfColumn | app/page.tsx:163-168 | defines one normalised column: every entry divided by the column's running maximum when that is positive, the column unchanged otherwise; the result has the column's length |
| IndexBuilder.TfTable | app/page.tsx:155-169 | defines the TF table: entry (i, j) is entry i of column j normalised; the result has the count table's shape |
| IndexBuilder.DocFrequency | app/page.tsx:178 | the number of positive entries is at most the row length, and 0 exactly when no entry is positive |
| IndexBuilder.IdfWeight | app/page.tsx:181-183 | the clamped IDF weight is never negative |
| IndexBuilder.TfIdfRow | app/page.tsx:177-187 | defines a row's TF-IDF weights: the row unchanged when no entry is positive, otherwise the row scaled by the clamped IDF weight of its document frequency; the length is kept |
| IndexBuilder.Scaled | app/page.tsx:184-187 | every entry of the scaled row is the old entry times the weight, and the length is kept |
| IndexBuilder.TfIdfTable | app/page.tsx:176-188 | defines the TF-IDF pass over the whole table: every TF row replaced by its TF-IDF row, one row per TF row |
| IndexBuilder.IndexOf | app/page.tsx:125-199 | defines what a run publishes: `Failure(EmptyVocabulary)` when the vocabulary is empty (line 154 throws), otherwise the vocabulary-labelled TF table and the TF-IDF table derived from it with N the number of files |
| IndexBuilder.FillCounts | app/page.tsx:144-150 | a fresh table whose entry (i, j) is the count of vocabulary term i in file j |
| IndexBuilder.MaxCountInFile | app/page.tsx:156-162 | the loop's running maximum is the column's `RunningMax` |
| IndexBuilder.NormalizeColumn | app/page.tsx:156-168 | column j becomes its normalised column, and no entry outside column j changes |
| IndexBuilder.NormalizeColumns | app/page.tsx:155-169 | every column ends normalised with respect to its own original contents |
| IndexBuilder.NumDocsContainingTerm | app/page.tsx:178 | the counting loop returns the row's document frequency |
| IndexBuilder.ScaleRow | app/page.tsx:184-187 | row w is multiplied by idf in place, and every other row is unchanged |
| IndexBuilder.IdfRow | app/page.tsx:177-187 | row w becomes its TF-IDF row (unchanged when df is 0), and every other row is unchanged |
| IndexBuilder.ApplyIdf | app/page.tsx:176-188 | every row of the table becomes the TF-IDF row of its own TF contents |
| IndexBuilder.Snapshot | app/page.tsx:172 | the copy holds each term with the current contents of its row |
| IndexBuilder.TfStage | app/page.tsx:144-169 | the filled and normalised table has, row by row, the TF table of the counts |
| IndexBuilder.BuildIndex | app/page.tsx:125-199 | the run publishes exactly `IndexOf`: failure on an empty vocabulary, otherwise the TF snapshot taken before IDF scaling and the TF-IDF table |
| IndexProperties.FilesContaining | app/page.tsx:178 | the number of files containing a term is at most the number of files, and positive exactly when some file contains it |
| IndexProperties.DocFrequencyCountsFiles | app/page.tsx:178 | a row positive exactly in the files holding t has t's file count as its document frequency |
| IndexProperties.TfColumnBounds | app/page.tsx:155-169 | a normalised column lies in [0, 1], is positive exactly where the counts are, reaches 1 when some count is positive, and stays all zero otherwise |
| IndexProperties.EmptyVocabularyIff | app/page.tsx:140-154 | the run fails exactly when no file keeps a token after stop-word removal |
| IndexProperties.IndexShape | app/page.tsx:140-191 | both tables have the same non-empty row sequence of terms, strictly ascending, one weight per file; the terms are exactly the tokens of the files |
| IndexProperties.TfWeightsOfFile | app/page.tsx:155-172 | file j's TF weights lie in [0, 1] and are positive exactly for its tokens; some weight is 1 iff the file keeps a token, and otherwise all are 0 |
| IndexProperties.TfColumnOfFile | app/page.tsx:144-169 | column j of the TF table of any vocabulary has the same bounds and the same positive-iff-present shape |
| IndexProperties.TfIdfWeights | app/page.tsx:176-191 | every published term is in between 1 and N files, its TF row's document frequency is that count, its TF-IDF row is the TF row scaled by the clamped IDF of that count, and no TF-IDF weight is negative |
| IndexProperties.ScaledNonNegative | app/page.tsx:183-187 | scaling by a non-negative weight keeps every entry non-negative |
| IndexProperties.IdfClampInactive | app/page.tsx:181-183 | for a monotone log2 with log2(1) = 0 and 1 <= df <= N, the clamp never fires, and a term in every file gets weight 0 |
| QueryVectorizer.MaxFreqIsMax | app/page.tsx:60-64 | the running `maxFreq` bounds every token's count, is reached by some token, and is 0 only for no tokens |
| QueryVectorizer.MaxFreq | app/page.tsx:60-64 | defines the running `maxFreq`: after each token, the larger of the previous value and that token's count so far |
| QueryVectorizer.QueryTf | app/page.tsx:56-72 | the query vector's keys are exactly the distinct tokens, every weight lies in (0, 1], a non-empty query has a weight 1, and a token weighs 1 exactly when no token occurs more often |
| QueryVectorizer.CountsOf | app/page.tsx:59-64 | the `counts` record has exactly the tokens as keys |
| QueryVectorizer.CountsOfAppend | app/page.tsx:61-62 | one more token sets its count to the previous count (or 0) plus 1 |
| QueryVectorizer.CountTokens | app/page.tsx:59-64 | the `forEach` yields the counts of the tokens and their maximum |
| QueryVectorizer.DivideCounts | app/page.tsx:65-70 | each count is divided by `maxFreq` |
| QueryVectorizer.CalculateQueryTf | app/page.tsx:56-72 | the method returns the query vector of the query's filtered tokens |
| Similarity.DocDotProdSim | app/page.tsx:33-41 | the accumulator loop returns the dot product of the two vectors |
| Similarity.DotStep | app/page.tsx:35-38 | visiting one more query term adds its product exactly when the document has the term |
| Similarity.Cosine | app/page.tsx:43-53 | defines the cosine score: the dot product over the product of the two Euclidean norms (`sqrt` of the sums of squares), guarded as `Normalized` |
| Similarity.Normalized | app/page.tsx:49-52 | defines the guarded division: 0 when either norm is 0, otherwise the dot product over the product of the norms |
| Similarity.DivideByNorms | app/page.tsx:49-52 | returns 0 when either norm is 0, and otherwise a score that multiplied by the product of the norms gives back the dot product |
| Similarity.DocCosineSimilarity | app/page.tsx:43-53 | the method returns the cosine score, and 0 whenever either magnitude is 0 |
| Similarity.CosineEmpty | app/page.tsx:43-53 | an empty query or document has cosine 0, whatever `sqrt` returns |
| Similarity.CosineNonNegative | app/page.tsx:43-53 | for a non-negative `sqrt` and non-negative vectors the cosine is non-negative |
| Similarity.CosineZeroIffDisjoint | app/page.tsx:43-53 | for a `sqrt` positive on positive numbers, two positive vectors have cosine 0 exactly when they share no term |
| Search.HasWeight | app/page.tsx:83 | defines the `docObj` guard: the row has a weight for the file and that weight is positive |
| Search.ColumnVectorKeys | app/page.tsx:79-86 | `docObj` holds exactly the terms of rows with a positive weight for the file, all with positive weights |
| Search.ColumnVectorValues | app/page.tsx:79-86 | with distinct row terms, each such term carries its row's weight |
| Search.ColumnVector | app/page.tsx:79-86 | defines `docObj`: the rows visited in order, each row with a positive weight for the file setting its term to that weight |
| Search.DocumentVector | app/page.tsx:79-86 | the `forEach` builds the file's document vector |
| Search.InsertByScorePermutes | app/page.tsx:89 | inserting adds exactly the new entry to the multiset of entries |
| Search.InsertByScoreSorted | app/page.tsx:89 | inserting into a list sorted by decreasing score keeps it sorted |
| Search.SortByScore | app/page.tsx:89 | the result is sorted by non-increasing score and is a permutation of the entries |
| Search.NumFiles | app/page.tsx:76-77 | defines the number of files: 0 for an empty table, otherwise the first row's weight count (`tableTF[0].length - 1`) |
| Search.Scores | app/page.tsx:76-88 | there is one entry per file of the table |
| Search.Score | app/page.tsx:204-208 | defines the chosen score: the dot product for the dot button, the cosine for the cosine button |
| Search.Rank | app/page.tsx:74-90 | an empty table gives no entries; otherwise one entry per file, a permutation of the file scores, in non-increasing order |
| Search.HandleSearch | app/page.tsx:202-209 | the search ranks the files against the query vector of the query text with the chosen score |
| Search.StopwordOnlyQuery | app/page.tsx:202-209 | a query with no token left after stop-word removal scores every file 0 |
| Search.ColumnVectorOfTokens | app/page.tsx:79-86 | on a table with distinct terms positive exactly for a token list, the document vector holds exactly those tokens with their rows' weights |
| Search.DocumentTerms | app/page.tsx:79-86 | on a published TF table, file j's document vector holds exactly the file's tokens, with their positive TF weights |
| Search.ScoreZeroIffNoSharedToken | app/page.tsx:92-107 | on a published TF table, a file scores 0 exactly when it shares no token with the query, for the dot product and (given a positive `sqrt`) the cosine |
| Search.QueryMaxIsColumnMax | app/page.tsx:60-64 | over a vocabulary holding the query's tokens, the query's `maxFreq` equals the maximum of the count column the indexer would build for the query as one file |
| Search.QueryTfIsTfColumn | app/page.tsx:56-72 | the query vector is the TF column the indexer would compute for the query as a one-file corpus: a vocabulary term has a query weight exactly when its TF weight is positive, and then the two weights are equal |

## Left out

- React state, the `useState` setters, progress percentages, `setTimeout` staging, tab switching and all rendering. These are user-interface plumbing. `BuildIndex` returns the two tables that `setTableTF` and `setTableTFIDF` would publish, and `HandleSearch` returns what `setSearchResults` would receive.
- `handleFileUpload` (`file.text()` promises) is browser I/O. The uploaded files reach the model as a sequence of `Document` values in `Object.entries` order.
- `StemmerFr.tokenizeAndStem` and `StopwordsFr.isStopword` belong to a foreign French linguistic library. They are the two function fields of an `Analyzer` parameter, about which nothing is assumed.
- `Math.sqrt` and `Math.log2` are function parameters. IEEE 754 rounding, NaN and infinities are not modelled, because numbers are exact reals.
- `formatNumber` (`toFixed(4)`) is display formatting.
- JavaScript objects used as records are maps. Two object behaviours are not modelled:
  - `Object.keys` and `Object.entries` list integer-like keys first, in ascending numeric order.
  - Names inherited from `Object.prototype`. `counts["constructor"] || 0` would read an inherited function. A file named `__proto__` is worse:
    - `tokenizedFiles[fn] = tks` (line 134) sets the record's prototype instead of adding a key.
    - `Object.values` (line 148) then skips that file's column, so names and columns go out of line at line 87.
    - A term found only in that file gets an all-zero row, which makes the `df === 0` branch at line 180 reachable.
    - The model gives every file its own column, so `IndexProperties.TfIdfWeights` proves that branch dead.
- Terms.Less: compares characters as Unicode scalar values, whereas `Array.prototype.sort` compares UTF-16 code units. The two orders differ only for characters outside the Basic Multilingual Plane.
- Search.SortByScore: the order among equal scores is not stated. That order depends on `Object.entries` key order in the `results` record, so only the non-increasing order and the permutation are claimed.
- Search.Rank: requires distinct file names and at least as many names as files. Both always hold for `Object.keys(uploadedFiles)`. With duplicate names, the `results` record would keep only the last score.
- Similarity.CosineNonNegative: does not state the upper bound 1 of the cosine (the Cauchy–Schwarz inequality), so scores are only shown to be non-negative.
- IndexBuilder.BuildIndex: the TF-IDF table is published as `[...newTable]`, a shallow copy whose rows alias `newTable`'s rows. Nothing writes to those rows afterwards, so the model publishes a value snapshot.
- Staleness is not modelled. The uploaded files can change after an indexing run, and a later search then pairs the old table with the new file names. `HandleSearch` takes the table and the names as separate inputs.
