# ClusterLog pattern engine in Dafny

This project models the core of ClusterLog. ClusterLog groups tokenised log
messages into clusters and derives one token pattern per cluster. The model
covers these parts:

- **`Match`** (`clusterlogs/sequence_matching.py`). It extracts a common
  pattern from a group of token sequences.
  - `sequence_matcher` is a randomised fold over the distinct sequences. It
    skips a sequence whose `difflib` ratio is below the threshold and has a
    retry budget.
  - `matcher` is a deterministic fold with placeholders.
  - `matching_clusters` chains groups greedily by similarity.
  - `matrix_matching` works column by column.
- **`SClustering`** (`clusterlogs/similarity_clusterization.py`). It splits a
  table of rows recursively. Each round:
  - the most frequent sequence is the pivot;
  - every row whose normalised Levenshtein similarity to the pivot reaches
    `accuracy` forms a cluster;
  - the cluster's patterns and indices are recorded;
  - its rows are dropped from the table in place.

  The result is then sorted by cluster size.
- **`TermsAnalysis`** (`clusterlogs/tfidf.py`). It builds frequency tables, tf
  tables (the denominator is the number of distinct words), document
  frequencies, idf and tf-idf tables, and the mask that replaces significant
  tokens with `｟*｠`.
- **`Tokens`** (`clusterlogs/tokenization.py`). Stop-word cleaning,
  vocabularies, and the tokenising loop.
- **`Regex`** (`clusterlogs/data_preparation.py`). Whitespace collapsing and
  the in-place cleaning loop.

## How the model is built

- **Python's error exits are modelled as values.** Each exception that the code
  can raise is a `Result` error in `Common`:
  - `IndexError` from `unique[0]` on an empty array or `matches[-1]` on an
    empty list;
  - `KeyError` and `ZeroDivisionError` in the idf step;
  - `ValueError` from `np.max` of an empty row.
- **`difflib.SequenceMatcher`** is re-implemented in `Difflib` for the
  no-junk case:
  - the longest matching block is chosen with difflib's tie-breaking (earliest
    in the first sequence, then earliest in the second);
  - the search recurses on both sides of that block;
  - adjacent blocks are merged;
  - `ratio` is 2·M/T.
- **`editdistance.eval`** is the token-level Levenshtein distance in
  `EditDistance`.
- **`random.choice`** draws from an injected stream of numbers (`Rng.Random`).
- **Tables that are updated in place are classes:**
  - the working table (`Frame`, whose `Drop` removes the filtered rows);
  - the result list (`RecordList`);
  - `Match` with its `attemptNumber` field;
  - the `patterns` list of `matching_clusters`;
  - `Tokens`;
  - `Regex`, over an `array`.
- **Every loop of the source is a method proved against a function or
  predicate.** Examples: `Fold`, `CommonPattern`, `Clustering`, `Groups`,
  `IsFrequencyTable`, `IsDocumentsPerWords`, `IsTfIdfTable`, `IsMaskedRow`.
  The properties the code promises are then lemmas about those definitions.
- **Python dicts** keep insertion order. They are modelled as a key sequence
  without duplicates plus a map (`TfIdf.Dict`).

The model keeps these paths of the code, including the ones that look
unintended:

- **`matcher`** pops the placeholder after the last matching block
  (sequence_matching.py:61). Its patterns never end with a placeholder.
- **`reclustering` on an empty table or with `accuracy > 1`.** No row is
  selected (similarity_clusterization.py:42). `sequence_matcher` then fails on
  `unique[0]` (sequence_matching.py:23-25). The model returns `IndexError`.
  The docstring step "repeat these steps while group has messages"
  (similarity_clusterization.py:34) covers only a non-empty table.
- **The tf-idf pipeline has a failure path.** An empty document leaves an empty
  value list, and `np.max` of it raises `ValueError` (tfidf.py:23).
- **`matrix_matching`** transposes with `zip` (sequence_matching.py:86). `zip`
  stops at the shortest sequence, so longer sequences are cut, not rejected.
- **The retry path of `sequence_matcher`** calls itself and discards the result
  (sequence_matching.py:52). The method then returns `None`, modelled as
  `Ok(None)`. The comment at sequence_matching.py:43 marks this retry as
  unfinished.
- **An empty pivot.** `levenshtein_similarity` returns the scalar `1` when the
  pivot is empty (similarity_clusterization.py:80, 88-89). Every row then joins
  the pivot's cluster, whatever `accuracy` (`EmptyPivotJoinsAll`). With
  `accuracy` 1, the cluster holds exactly the rows equal to the pivot only when
  the pivot is non-empty (`AccuracyOneIdentical`).

## Model

| member | source | states |
|---|---|---|
| `Rng.Random.Choice` | clusterlogs/sequence_matching.py:27 | the draw is an index below `n`, taken from the next value of the stream, and consumes exactly one value |
| `Difflib.MatchingBlocks` | clusterlogs/sequence_matching.py:36 | the blocks of `get_matching_blocks()[:-1]` are non-empty, in both ranges, strictly increasing and non-overlapping in both sequences, with equal contents |
| `Difflib.LongestMatchIsLongest` | clusterlogs/sequence_matching.py:29 | no matching block in the window is longer than the one `find_longest_match` returns |
| `Difflib.CommonSubsequence` | clusterlogs/sequence_matching.py:36-37 | the concatenated matched text is a subsequence of both sequences, and the matched length is at most either length |
| `Difflib.Ratio` | clusterlogs/sequence_matching.py:30 | `ratio()` lies in [0, 1] |
| `Difflib.RatioSelf` | clusterlogs/sequence_matching.py:30 | a sequence compared with itself has ratio exactly 1 |
| `EditDistance.DistanceZero` | clusterlogs/similarity_clusterization.py:83 | the edit distance is 0 exactly when the two sequences are equal |
| `EditDistance.DistanceUpper` | clusterlogs/similarity_clusterization.py:83 | the edit distance is at most the longer length, so the normalised score is never negative |
| `EditDistance.DistanceLower` | clusterlogs/similarity_clusterization.py:83 | the edit distance is at least the difference of the lengths |
| `SequenceMatching.Match.constructor` | clusterlogs/sequence_matching.py:16-20 | stores the sequences, the threshold and the attempt budget, and starts at attempt 1 |
| `SequenceMatching.Match.SequenceMatcher` | clusterlogs/sequence_matching.py:22-52 | at most one distinct sequence: returns it unchanged (IndexError when none) without drawing and without retrying. Otherwise: returns the fold from the randomly chosen seed when that fold has a non-junk token or the budget is spent, and otherwise retries and yields `None`. It never makes more than `max_attempts + 1` invocations. With a positive threshold and non-empty sequences it never raises |
| `SequenceMatching.Match.FoldGroup` | clusterlogs/sequence_matching.py:28-41 | the loop over the distinct sequences computes exactly `Fold` from the seed |
| `SequenceMatching.FoldUnchanged` | clusterlogs/sequence_matching.py:29-31 | sequences whose ratio is below the threshold leave the pattern untouched |
| `SequenceMatching.StepNoError` | clusterlogs/sequence_matching.py:29-41 | with a positive threshold, a step against a non-empty sequence never raises |
| `SequenceMatching.FoldNoError` | clusterlogs/sequence_matching.py:28-41 | with a positive threshold, the fold over non-empty sequences never raises |
| `SequenceMatching.RefinePlain` | clusterlogs/sequence_matching.py:36-41 | without placeholders an accepted step yields a subsequence of both the old pattern and the sequence, never longer than either |
| `SequenceMatching.FoldSubseq` | clusterlogs/sequence_matching.py:28-41 | without placeholders the folded pattern is a subsequence of the seed and, when no sequence is skipped, of every sequence |
| `SequenceMatching.PopJoin` | clusterlogs/sequence_matching.py:39-41 | appending a placeholder to every block and popping the last one gives the blocks joined by single placeholders |
| `SequenceMatching.RefinePlaceholders` | clusterlogs/sequence_matching.py:38-41 | with placeholders a step raises IndexError exactly when there is no matching block. Otherwise the result is well formed, does not end in a placeholder, has one placeholder fewer than there are blocks, and without its placeholders is the placeholder-free result |
| `SequenceMatching.FoldWellFormed` | clusterlogs/sequence_matching.py:38-41 | folding with placeholders keeps patterns well formed: no placeholder first, last or next to another |
| `SequenceMatching.FoldCommonLiterals` | clusterlogs/sequence_matching.py:28-41 | when no sequence is skipped, the literal tokens of the placeholder fold form a common subsequence of the seed and of every sequence |
| `SequenceMatching.FoldLiterals` | clusterlogs/sequence_matching.py:28-41 | at any threshold, the literal tokens of the placeholder fold over placeholder-free sequences are a subsequence of the seed's literal tokens |
| `SequenceMatching.RefineIdentical` | clusterlogs/sequence_matching.py:36-41 | refining a non-empty pattern with itself returns it unchanged |
| `SequenceMatching.Match.Matcher` | clusterlogs/sequence_matching.py:54-63 | the loop computes exactly `CommonPattern`, the placeholder fold from `sequences[0]` |
| `SequenceMatching.FoldWithoutThreshold` | clusterlogs/sequence_matching.py:54-63 | `matcher` is the threshold-free fold: with a threshold of at most 0 the `sequence_matcher` step reduces to it |
| `SequenceMatching.MatcherIdentical` | clusterlogs/sequence_matching.py:54-63 | on identical non-empty sequences `matcher` returns that sequence |
| `SequenceMatching.MatcherShape` | clusterlogs/sequence_matching.py:54-63 | a pattern from `matcher` is well formed, neither starts nor ends with a placeholder, and its literals are a subsequence of every input |
| `SequenceMatching.MatcherEmptyFirst` | clusterlogs/sequence_matching.py:55-61 | an empty first sequence makes `matches[-1].pop()` raise IndexError |
| `SequenceMatching.Close` | clusterlogs/sequence_matching.py:70-73 | a sequence is selected exactly when its similarity is at least 0.7 |
| `SequenceMatching.DeleteMask` | clusterlogs/sequence_matching.py:75 | `np.delete` of the selected positions leaves exactly the unselected sequences, in order |
| `SequenceMatching.Match.Partition` | clusterlogs/sequence_matching.py:68-75 | raises IndexError exactly when a score beyond the sequences reaches 0.7. Otherwise `filtered` is the selected sequences and deleting `to_remove` leaves the others |
| `SequenceMatching.Match.Round` | clusterlogs/sequence_matching.py:68-75 | one round appends the group's pattern and continues with the remaining sequences, or raises and appends nothing |
| `SequenceMatching.ClusteringFirstRound` | clusterlogs/sequence_matching.py:68-80 | the first round fails exactly on an overrun or a `matcher` error. Otherwise its pattern comes first, fewer sequences remain, and the selected and remaining sequences together are the input as a multiset |
| `SequenceMatching.ClusteringBound` | clusterlogs/sequence_matching.py:65-80 | the greedy chaining never appends more patterns than there are sequences |
| `SequenceMatching.Match.MatchingClusters` | clusterlogs/sequence_matching.py:65-80 | the caller's list is extended by exactly the patterns of `Clustering`, and the method raises exactly when `Clustering` fails |
| `SequenceMatching.MinLen` | clusterlogs/sequence_matching.py:86 | `zip` stops at the shortest sequence |
| `SequenceMatching.MatrixMatching` | clusterlogs/sequence_matching.py:82-88 | one sequence is returned unchanged. Otherwise the output has the shortest length, and position i holds the shared token when all sequences agree there and a placeholder otherwise |
| `SequenceMatching.MatrixIdentical` | clusterlogs/sequence_matching.py:82-88 | identical sequences give back that sequence |
| `SimilarityClusterization.Mode` | clusterlogs/similarity_clusterization.py:37 | the pivot occurs in the column and no sequence occurs more often |
| `SimilarityClusterization.ModeIndex` | clusterlogs/similarity_clusterization.py:37 | the chosen position holds a most frequent sequence, and the first one among equals |
| `SimilarityClusterization.LevenshteinSimilarity` | clusterlogs/similarity_clusterization.py:72-89 | one score per row exactly when there are at least two rows and the pivot is non-empty, the scalar 1 otherwise |
| `SimilarityClusterization.SimilarityScores` | clusterlogs/similarity_clusterization.py:80-84 | each score is one minus the edit distance over the longer length, lies in [0, 1], and is 1 exactly for rows equal to the pivot |
| `SimilarityClusterization.ScoreBounds` | clusterlogs/similarity_clusterization.py:83 | a score lies in [0, 1] |
| `SimilarityClusterization.ScoreOne` | clusterlogs/similarity_clusterization.py:83 | a row scores 1 exactly when it equals the pivot |
| `SimilarityClusterization.RatioBounds` | clusterlogs/similarity_clusterization.py:37-40 | every ratio lies in [0, 1], and rows equal to the pivot have ratio 1 |
| `SimilarityClusterization.PivotSelected` | clusterlogs/similarity_clusterization.py:37-42 | a non-empty table gives a non-empty cluster exactly when `accuracy` is at most 1, and then a pivot row is in it |
| `SimilarityClusterization.AccuracyZeroCollapse` | clusterlogs/similarity_clusterization.py:42 | with `accuracy` at most 0 every row joins the first cluster |
| `SimilarityClusterization.AccuracyOneIdentical` | clusterlogs/similarity_clusterization.py:40-42 | with `accuracy` 1 and a non-empty pivot, a row joins exactly when its sequence equals the pivot |
| `SimilarityClusterization.EmptyPivotJoinsAll` | clusterlogs/similarity_clusterization.py:88-89 | an empty pivot gives the scalar 1, so every row joins at any `accuracy` up to 1 |
| `SimilarityClusterization.ClusterEmpty` | clusterlogs/similarity_clusterization.py:42 | the filtered rows of a non-empty table are empty exactly when `accuracy > 1` |
| `SimilarityClusterization.RemainingShrinks` | clusterlogs/similarity_clusterization.py:68 | with `accuracy` at most 1, dropping the filtered rows strictly shrinks the table |
| `SimilarityClusterization.SelectNonEmpty` | clusterlogs/similarity_clusterization.py:42-68 | selecting rows of a table of non-empty rows gives non-empty rows, so the cluster and the rest keep them |
| `SimilarityClusterization.GroupsStep` | clusterlogs/similarity_clusterization.py:42-70 | the clusters of a table are its first cluster followed by the clusters of what remains after the drop |
| `SimilarityClusterization.SelectIndices` | clusterlogs/similarity_clusterization.py:53-68 | the indices of the filtered rows and of the remaining rows together are the table's indices as a multiset |
| `SimilarityClusterization.GroupsCover` | clusterlogs/similarity_clusterization.py:27-70 | the clusters' indices together are exactly the initial indices as a multiset: none lost, none repeated |
| `SimilarityClusterization.RecordedRound` | clusterlogs/similarity_clusterization.py:60-70 | the record of a round followed by the records of the recursion are the records of the table's clusters |
| `SimilarityClusterization.RecordedIndices` | clusterlogs/similarity_clusterization.py:53-63 | the indices of the records are the indices of the clusters, in order |
| `SimilarityClusterization.RecordedCons` | clusterlogs/similarity_clusterization.py:60-70 | a record describing a cluster, in front of the records of further clusters, records them all |
| `SimilarityClusterization.MatchedPattern` | clusterlogs/sequence_matching.py:22-52 | the only distinct sequence, or the fold of the distinct sequences from one of them, has the shape `PatternOf` states |
| `SimilarityClusterization.InsertPermutes` | clusterlogs/similarity_clusterization.py:25 | inserting a record into the sorted list adds exactly that record |
| `SimilarityClusterization.InsertSorted` | clusterlogs/similarity_clusterization.py:25 | inserting into a list sorted by descending size keeps it sorted |
| `SimilarityClusterization.SortBySizeCorrect` | clusterlogs/similarity_clusterization.py:25 | the sort by `cluster_size` is descending and a permutation of the records, so it keeps the same indices |
| `SimilarityClusterization.Frame.Drop` | clusterlogs/similarity_clusterization.py:68 | the table keeps exactly the rows not filtered, in order |
| `SimilarityClusterization.RecordList.Append` | clusterlogs/similarity_clusterization.py:60-66 | the record is appended at the end |
| `SimilarityClusterization.ClusterPattern` | clusterlogs/similarity_clusterization.py:44-51 | `sequence_matcher` raises IndexError on an empty group and never raises on non-empty sequences. One distinct sequence is returned as the pattern. Without placeholders a pattern is a subsequence of one of the sequences. With placeholders, over placeholder-free sequences, a pattern is well formed and its literal tokens are a subsequence of one of the sequences |
| `SimilarityClusterization.ClusterRecord` | clusterlogs/similarity_clusterization.py:44-63 | the record of a cluster: IndexError on an empty cluster, success on rows with non-empty sequences, and then the two patterns of `ClusterPattern` for the cluster's columns, its indices and their number |
| `SimilarityClusterization.SClustering.constructor` | clusterlogs/similarity_clusterization.py:12-16 | stores the groups, `accuracy` and `add_placeholder` |
| `SimilarityClusterization.SClustering.Round` | clusterlogs/similarity_clusterization.py:36-68 | raises IndexError on an empty table or `accuracy > 1`, and succeeds on a non-empty table of non-empty rows with `accuracy` at most 1. On success it drops exactly the filtered rows and appends one record describing the cluster: its patterns, its indices and their number |
| `SimilarityClusterization.SClustering.Repeat` | clusterlogs/similarity_clusterization.py:69-70 | the loop ends with an empty table, having appended a record describing each of the table's clusters; on non-empty rows with `accuracy` at most 1 it succeeds |
| `SimilarityClusterization.SClustering.Reclustering` | clusterlogs/similarity_clusterization.py:27-70 | raises IndexError on an empty table or `accuracy > 1`, and succeeds on a non-empty table of non-empty rows with `accuracy` at most 1. On success it empties the table and appends one record per cluster of `Groups`, in order, each with the cluster's patterns and indices |
| `SimilarityClusterization.SClustering.Process` | clusterlogs/similarity_clusterization.py:18-25 | fails on empty groups or `accuracy > 1`, and succeeds on non-empty rows with `accuracy` at most 1. The groups are left unchanged, and the stored records describe the clusters. The returned records are sorted by descending size, are a permutation of them, and carry each initial index exactly as often as the groups do |
| `TfIdf.DocCountPositive` | clusterlogs/tfidf.py:64-68 | a word is counted in some document exactly when some frequency table contains it |
| `TfIdf.DocumentFrequencyBounds` | clusterlogs/tfidf.py:60-70 | a word has a document frequency exactly when it occurs in a table, and then 1 ≤ df ≤ the number of documents |
| `TfIdf.DocumentsPerWordsKnown` | clusterlogs/tfidf.py:80 | every word of every frequency table has a non-zero document frequency, so the idf lookup cannot fail |
| `TfIdf.TfIdfByKey` | clusterlogs/tfidf.py:94-96 | pairing tf and idf entries by position gives the tf keys, each with tf times idf of that same word |
| `TfIdf.MaskedRowOfDocument` | clusterlogs/tfidf.py:103-113 | a masked row has one entry per distinct token in first-occurrence order. Each entry is the mask where the value reaches the threshold, and that token otherwise |
| `TfIdf.DocumentKeys` | clusterlogs/tfidf.py:14-18 | every tf-idf table has as keys the document's distinct tokens in first-occurrence order |
| `TfIdf.DocFreqPositive` | clusterlogs/tfidf.py:60-70 | a word of a document is held by at least one document |
| `TfIdf.DocCountFreq` | clusterlogs/tfidf.py:60-70 | the number of frequency tables holding a word is the number of documents holding it |
| `TfIdf.TfTableOf` | clusterlogs/tfidf.py:45-57 | the tf table built from a document's frequency table is the reference tf table of the document |
| `TfIdf.IdfTableOf` | clusterlogs/tfidf.py:73-84 | the idf table built from a document's frequency table and the document frequencies is the reference idf table of the document |
| `TfIdf.TableWeights` | clusterlogs/tfidf.py:87-100 | the values of a document's tf-idf table, in key order, are the reference tf-idf weights of its distinct words |
| `TfIdf.MaskedDocumentOf` | clusterlogs/tfidf.py:103-113 | masking that table with `stat` of its values gives the row the reference weights determine |
| `TfIdf.DocumentRows` | clusterlogs/tfidf.py:12-25 | the rows `remove_unnecessary` makes of the pipeline's tables are the rows the reference weights determine, document by document |
| `TfIdf.TermsAnalysis.constructor` | clusterlogs/tfidf.py:7-9 | stores the tokenised documents |
| `TfIdf.TermsAnalysis.FrequencyTable` | clusterlogs/tfidf.py:33-38 | the keys are the distinct tokens in first-occurrence order, each value is the token's count, and the counts sum to the length |
| `TfIdf.TermsAnalysis.FrequencyMatrix` | clusterlogs/tfidf.py:29-42 | one frequency table per document |
| `TfIdf.TermsAnalysis.TfTable` | clusterlogs/tfidf.py:49-53 | same keys as the frequency table, and each value is the count over the number of distinct words |
| `TfIdf.TermsAnalysis.TfMatrix` | clusterlogs/tfidf.py:45-57 | one tf table per frequency table |
| `TfIdf.TermsAnalysis.CountWords` | clusterlogs/tfidf.py:64-68 | counting one more table gives the document frequencies of the tables so far plus that one |
| `TfIdf.TermsAnalysis.DocumentsPerWords` | clusterlogs/tfidf.py:60-70 | each word maps to the number of tables that contain it, and only words that occur are keys |
| `TfIdf.TermsAnalysis.IdfTable` | clusterlogs/tfidf.py:77-80 | apart from the `log10(0.0)` error listed under Left out, succeeds exactly when every word has a non-zero document frequency. It then has the same keys, each valued `log10(total / df)` |
| `TfIdf.TermsAnalysis.IdfMatrix` | clusterlogs/tfidf.py:73-84 | succeeds exactly when every table's words are known, with one idf table per frequency table |
| `TfIdf.TermsAnalysis.TfIdfTable` | clusterlogs/tfidf.py:92-96 | the entries pair the tf and idf tables by position, keyed by the tf word |
| `TfIdf.TermsAnalysis.TfIdfMatrix` | clusterlogs/tfidf.py:87-100 | one paired table per pair of tables, as many as the shorter list |
| `TfIdf.TermsAnalysis.MaskRow` | clusterlogs/tfidf.py:106-111 | raises IndexError exactly when the row is non-empty and has no threshold. Otherwise every entry is masked exactly when its value reaches the threshold |
| `TfIdf.TermsAnalysis.RemoveUnnecessary` | clusterlogs/tfidf.py:103-113 | one masked row per table, and IndexError exactly when a non-empty table lacks a threshold |
| `TfIdf.TermsAnalysis.Stats` | clusterlogs/tfidf.py:20-23 | one statistic per table over its values, and ValueError exactly when some table is empty |
| `TfIdf.TermsAnalysis.Process` | clusterlogs/tfidf.py:12-25 | ValueError exactly when some document is empty. Otherwise one row per document: its distinct tokens in first-occurrence order, each replaced by the mask exactly when its tf-idf weight, computed from the documents alone, reaches `stat` of the document's weights |
| `Tokenization.Pyonmttok` | clusterlogs/tokenization.py:37-42 | exactly one token list per input string, in input order |
| `Tokenization.CleanTokens` | clusterlogs/tokenization.py:46-60 | one cleaned row per input row, in order |
| `Tokenization.CleanMember` | clusterlogs/tokenization.py:55-57 | a token survives cleaning exactly when it occurs in the row and its lowercase is not a stop word |
| `Tokenization.CleanCount` | clusterlogs/tokenization.py:55-57 | a kept token keeps all its occurrences, and a stop word keeps none |
| `Tokenization.CleanSubseq` | clusterlogs/tokenization.py:55-57 | the cleaned row is a subsequence of the row, so the order is kept |
| `Tokenization.GetVocabulary` | clusterlogs/tokenization.py:67-69 | the vocabulary has no duplicates and contains a token exactly when some row does |
| `Tokenization.Tokens.constructor` | clusterlogs/tokenization.py:12-16 | stores the messages |
| `Tokenization.Tokens.Process` | clusterlogs/tokenization.py:19-29 | the cleaned and the plain tokenisations have one row per message, and the two vocabularies are theirs |
| `DataPreparation.RemoveWhitespacesNormalized` | clusterlogs/data_preparation.py:13-19 | the output has no leading or trailing whitespace, no whitespace other than single spaces, and no two spaces in a row |
| `DataPreparation.RemoveWhitespacesKeepsText` | clusterlogs/data_preparation.py:19 | deleting the spaces from the output gives the input with all whitespace deleted |
| `DataPreparation.SplitJoin` | clusterlogs/data_preparation.py:19 | splitting a space-joined list of words gives the words back |
| `DataPreparation.RemoveWhitespacesIdempotent` | clusterlogs/data_preparation.py:19 | collapsing twice is collapsing once |
| `DataPreparation.RemoveWhitespacesEmpty` | clusterlogs/data_preparation.py:19 | the output is empty exactly when the input is all whitespace |
| `DataPreparation.Regex.constructor` | clusterlogs/data_preparation.py:8-10 | stores the messages and the regular expressions |
| `DataPreparation.Regex.Process` | clusterlogs/data_preparation.py:22-35 | every message is replaced in place by its substituted and whitespace-collapsed form, the same list is returned, and every entry is normalised |

## Left out

- `np.unique` sorts its result. The model keeps the distinct sequences in order of first occurrence (`Seqs.Distinct`). Only the seed that `random.choice` picks and the order of the fold depend on this.
- `difflib`'s autojunk heuristic is not modelled. It applies only when the second sequence has at least 200 tokens.
- A failing `editdistance.eval` makes `levenshtein_similarity` print and return `None`. This path is not modelled, because tokens are always comparable strings.
- `random.choice` is an injected stream of draws, not a generator.
- `re.sub` is a parameter `substitute`, in `Regex.process` and in the pattern cleaning of `reclustering`.
- The tokenisers, `str.lower` and the stop-word list are parameters.
- `math.log10` and `np.max(...) - np.std(...)` are parameters `log10` and `stat`. Floating-point rounding is not modelled: values are `real`.
- `hashing` (Python's `hash`) is not modelled, and neither is the `hashed` field it fills.
- `detokenize_row`, the textual pattern and its `re.sub`, `extract_common_phrases` and the joined text are not modelled. Their modules are not part of this model, so records carry only the tokenised pattern, the indices, the size and the common sequence.
- The `ratio` column that `reclustering` stores in the table is not kept. Only the selection it induces is modelled.
- `describe().top` breaks ties in its own way. The model picks the first most frequent sequence.
- `df.drop(filtered.index)` is modelled by position. This assumes the table's index labels are unique.
- `sort_values` uses quicksort, which is not stable. The model's insertion sort fixes one order among records of equal size.
- `tokenizer_type` is only used by `detokenize_row`, so it is not stored.
- The diagnostic `print` in the retry path of `sequence_matcher` is not modelled.
- `distance_curve` (plotting and knee detection) is not modelled.
- `levenshtein_similarity_1_to_n` (used by `matching_clusters`) is not part of this model. It is the parameter `similarity`.
- `TfIdf.TermsAnalysis.IdfMatrix`: on failure the model states only that the error is `KeyError` or `ZeroDivisionError`, not which of the two the first failing word raises.
- `TfIdf.TermsAnalysis.IdfTable`: `math.log10(0.0)` raises `ValueError` when `total_documents` is 0 and a table has words. `log10` is a total parameter here, so this error is not modelled. `process` passes the number of documents, which is at least 1 whenever a table has words.
- `TfIdf.TermsAnalysis.IdfMatrix`: for the same reason, it does not model the `ValueError` of `math.log10(0.0)` when `total_documents` is 0.
- `SequenceMatching.DeleteMask`: `sequences` is taken as a one-dimensional array of sequences. On a list of equal-length token lists, `np.delete` without an axis flattens the 2-D array and deletes single tokens; on a ragged list it raises. Neither is modelled.
- `SequenceMatching.Match.Partition`: it relies on `DeleteMask`, so it makes the same one-dimensional assumption.
- `SequenceMatching.Match.MatchingClusters`: it relies on `DeleteMask`, so it makes the same one-dimensional assumption.
- `SimilarityClusterization.ClusterPattern`: with placeholders, the shape of the pattern is stated only for placeholder-free sequences. A tokenised pattern that already holds `(.*?)` can produce a placeholder next to another.
