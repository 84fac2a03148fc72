# FLAME duplicate detection, modelled in Dafny

This project models the three duplicate finders of the FLAME coin-find tools
once their CSV files have been read into rows.

- **Candidate-pair similarity engine** (`calculate_similarity_between_pairs`).
  The engine first drops CoinFinds with no coins and CoinFinds without
  CoinGroups rows. It then buckets the remaining finds by their exact-match
  columns and two coordinate bins, `int(coord / tolerance)`. It pairs the
  finds inside each bucket of two or more with `combinations` and runs each
  pair through the filter chain in the source's order:
  - coordinate re-check;
  - minimum coin count;
  - a 3-character substring shared by the publication references;
  - exact-column equality;
  - CoinGroups rows on both sides.

  A surviving pair is scored by the Jaccard overlap of the two finds'
  de-duplicated CoinGroups tuples, as a percentage. Pairs scoring above 0
  are kept and ranked by a stable descending sort.
- **Conditioned duplicates** (`find_conditioned_duplicates_with_join`).
  CoinGroups rows are inner-joined to CoinFinds on `cfID == ID` and grouped
  by the "same" CoinGroups columns. With no "same" column, the whole join is
  one group. A group is reported when every "different" CoinGroups column
  holds more than one distinct value in it and every "same" CoinFinds column
  holds exactly one.
- **Exact duplicates** (`find_exact_duplicates`). Rows are grouped by the key
  columns, and every group of more than one row is reported.

Modules:
- `Tables`: cells, rows, the column-presence check and key tuples.
- `Grouping`: `groupby` as a partition of row positions by key.
- `SharedSubstring`, `Binning`, `Overlap`, `PairGeneration` and `Ranking`:
  the engine's stages.
- `SimilarityEngine`, `ConditionedDuplicates` and `ExactDuplicates`: the
  three runs.

Each run is a method. It returns what the source writes: the first missing
column, a failure, the engine's "no finds remaining" or "no suspicious finds"
message, or the result. Its contract ties that result to specification
functions, and lemmas prove what those functions promise.

### Behaviour worth knowing

- **Bins.** Bins use `int()`, which truncates toward zero, so bin 0 spans
  (-tol, tol) and is twice as wide as every other bin.
- **Scoring.** calculate_similarity_with_tolerance.py scores a pair by the
  plain Jaccard ratio of the de-duplicated tuple sets and attaches no tags.
- **Empty results.** Each empty case writes its own message, and the model
  gives each its own outcome.
- **Tolerances.** Tolerances are not checked:
  - a zero tolerance makes `int()` raise on `inf` or `nan`, and the run
    fails, provided some find survives the pre-filter (otherwise the run
    writes "No CoinFinds remaining" before any bin is computed);
  - a negative tolerance makes the re-check reject every pair.

## Model

| member | source | states |
|---|---|---|
| Tables.FirstMissing | testread.py:19-26 | the check reports nothing exactly when every required column is in the header; otherwise it reports a missing column, and every column listed before it is present |
| Tables.ProjectEqual | testread.py:29 | two rows have the same key tuple exactly when they agree on every key column |
| Grouping.GroupBy | testread.py:29 | the groups split the rows into non-empty ascending classes; each class holds exactly the rows sharing its key; every row is in exactly one class |
| Grouping.KeepRepeated | testread.py:33-34 | the kept classes are exactly the classes of more than one row; distinct classes stay distinct |
| Grouping.RepeatedCovers | testread.py:29-34 | a row whose key another row shares lies in a kept class |
| Grouping.TwinsInRepeatedClass | testread.py:29-34 | two rows with one key lie, in their order, in one kept class |
| Grouping.RepeatedHasTwin | testread.py:29-34 | a row in a kept class shares its key with another row |
| Grouping.RepeatedCoverage | testread.py:29-34 | a row lies in a kept class exactly when another row has the same key |
| Grouping.RepeatedClasses | testread.py:29-34 | the kept classes are ascending and pairwise disjoint; each has more than one row, all with one key |
| SharedSubstring.Occurs | calculate_similarity_with_tolerance.py:16 | `sub in s2`: some window of the second string equals the substring; ScanFrom and SharedIffCommon are stated with it |
| SharedSubstring.ScanFrom | calculate_similarity_with_tolerance.py:14-18 | the scan from position i succeeds exactly when some length-n window of the first string starting at i or later occurs in the second |
| SharedSubstring.HasSharedSubstringOfLengthN | calculate_similarity_with_tolerance.py:5-18 | false when either string is empty; otherwise true exactly when some length-n window of the first string occurs in the second |
| SharedSubstring.SharedIffCommon | calculate_similarity_with_tolerance.py:10-18 | true exactly when both strings are non-empty and hold a common substring of length n |
| SharedSubstring.ShortNeverShares | calculate_similarity_with_tolerance.py:14-18 | a string shorter than n never shares a length-n substring |
| SharedSubstring.SharedSymmetric | calculate_similarity_with_tolerance.py:5-18 | the test does not depend on the order of its arguments |
| Binning.Trunc | calculate_similarity_with_tolerance.py:82-83 | `int()` lies within one below a non-negative value and within one above a negative one (truncation toward zero) |
| Binning.Bin | calculate_similarity_with_tolerance.py:82-83 | a find's bin on one axis: `int(coord / tol)`; Trunc, ZeroBinSpan and SameNonZeroBinWithinTolerance state what it means |
| Binning.ZeroBinSpan | calculate_similarity_with_tolerance.py:82-83 | with a positive tolerance, bin 0 holds exactly the coordinates in (-tol, tol) |
| Binning.SameNonZeroBinWithinTolerance | calculate_similarity_with_tolerance.py:82-83 | two coordinates in the same non-zero bin differ by less than the tolerance |
| Binning.ZeroBinCanExceedTolerance | calculate_similarity_with_tolerance.py:82-83 | bin 0 holds ±0.75·tol, two coordinates further apart than the tolerance |
| Overlap.Percentage | calculate_similarity_with_tolerance.py:159-161 | the overlap score of two tuple sets; IsJaccard, Bounds, Symmetric, EqualScoresHundred and DisjointScoresZero state what it means |
| Overlap.UnionSize | calculate_similarity_with_tolerance.py:160 | the denominator `len(groups1) + len(groups2) - len(merged)` is the size of the union |
| Overlap.IsJaccard | calculate_similarity_with_tolerance.py:159-161 | the score is the size of the intersection over the size of the union, times 100, and 0 for two empty sets |
| Overlap.Bounds | calculate_similarity_with_tolerance.py:159-161 | the score lies in [0, 100] and is positive exactly when the two sets meet |
| Overlap.Symmetric | calculate_similarity_with_tolerance.py:159-161 | the score does not depend on the order of the two sets |
| Overlap.EqualScoresHundred | calculate_similarity_with_tolerance.py:159-161 | two equal non-empty sets score 100 |
| Overlap.DisjointScoresZero | calculate_similarity_with_tolerance.py:159-161 | two disjoint sets score 0 |
| PairGeneration.Choose2Closed | calculate_similarity_with_tolerance.py:112 | C(n, 2) = n(n - 1)/2 |
| PairGeneration.Combinations | calculate_similarity_with_tolerance.py:112 | a bucket of n finds gives C(n, 2) pairs |
| PairGeneration.CombinationsMembers | calculate_similarity_with_tolerance.py:112 | the pairs are exactly (b[i], b[j]) with i < j |
| PairGeneration.CombinationsOnce | calculate_similarity_with_tolerance.py:112 | for ascending positions, no pair repeats and each lists the smaller position first |
| PairGeneration.GeneratePairs | calculate_similarity_with_tolerance.py:108-112 | the loop builds all buckets' pairs, bucket after bucket, Σ C(\|b\|, 2) of them |
| PairGeneration.AllPairs | calculate_similarity_with_tolerance.py:108-112 | the pairs of all buckets, bucket after bucket; GeneratePairs, AllPairsMembers and AllPairsOnce state what it holds |
| PairGeneration.AllPairsMembers | calculate_similarity_with_tolerance.py:108-112 | a pair is generated exactly when it is two positions i < j of one bucket |
| PairGeneration.PairInOneBucket | calculate_similarity_with_tolerance.py:108-112 | both finds of a generated pair lie in one bucket |
| PairGeneration.AllPairsOnce | calculate_similarity_with_tolerance.py:108-112 | for disjoint ascending buckets, every unordered pair is generated once, smaller position first |
| PairGeneration.TotalPairsClosed | calculate_similarity_with_tolerance.py:108-112 | the number of pairs is Σ \|b\|(\|b\| - 1)/2 |
| Ranking.Insert | calculate_similarity_with_tolerance.py:169 | inserting adds exactly one line |
| Ranking.InsertRanked | calculate_similarity_with_tolerance.py:169 | inserting into a ranked list keeps it ranked |
| Ranking.RankByScore | calculate_similarity_with_tolerance.py:169 | the output is non-increasing in score and a permutation of the input |
| Ranking.InsertKeepsTies | calculate_similarity_with_tolerance.py:169 | an insertion never moves a line past a line of equal score |
| Ranking.RankKeepsTies | calculate_similarity_with_tolerance.py:169 | the lines of any one score keep their input order (the sort is stable) |
| SimilarityEngine.Survivors | calculate_similarity_with_tolerance.py:70-74 | a find survives exactly when it has coins and some CoinGroups row names it |
| SimilarityEngine.SurvivorsEligible | calculate_similarity_with_tolerance.py:70-74 | every survivor has coins and CoinGroups rows |
| SimilarityEngine.KeyOf | calculate_similarity_with_tolerance.py:82-86 | a find's bucket key: its compare-column values and its two bins |
| SimilarityEngine.Keys | calculate_similarity_with_tolerance.py:82-86 | the bucket key of every surviving find, by position |
| SimilarityEngine.Buckets | calculate_similarity_with_tolerance.py:86-89 | the groups of more than one find with one bucket key; BucketsFacts and SameKeyIsCandidate state what they hold |
| SimilarityEngine.Check | calculate_similarity_with_tolerance.py:122-152 | a pair passes exactly when both distances are within tolerance (equality passes), both coin counts reach the minimum, the references share 3 characters, the compare columns agree and both finds have CoinGroups rows |
| SimilarityEngine.TupleSet | calculate_similarity_with_tolerance.py:155-156 | the de-duplicated similarity-column tuples of a find's CoinGroups rows; TupleSetNonEmpty and ScoreExtremes are stated with it |
| SimilarityEngine.Score | calculate_similarity_with_tolerance.py:159-161 | a pair's score: the overlap percentage of the two finds' tuple sets; PairSymmetric, ScoreExtremes and KeptScores state its range and symmetry |
| SimilarityEngine.Qualifies | calculate_similarity_with_tolerance.py:122-163 | a pair qualifies when it passes every check and its score is above 0; KeptSound and KeptComplete are stated with it |
| SimilarityEngine.ResultOf | calculate_similarity_with_tolerance.py:164 | a qualifying pair's result line: the two finds' IDs and the pair's score; KeptSound, KeptComplete and RankedKept are stated with it |
| SimilarityEngine.Kept | calculate_similarity_with_tolerance.py:163-164 | the lines of the pairs that pass every check and score above 0, in pair order; KeptSound, KeptComplete and ScorePairs state this |
| SimilarityEngine.TupleSetNonEmpty | calculate_similarity_with_tolerance.py:150-156 | a find with CoinGroups rows has a non-empty tuple set |
| SimilarityEngine.KeptSound | calculate_similarity_with_tolerance.py:163-164 | every kept line comes from a pair that passes every check and scores above 0 |
| SimilarityEngine.KeptComplete | calculate_similarity_with_tolerance.py:163-164 | every pair that passes every check and scores above 0 gives a kept line |
| SimilarityEngine.KeptScores | calculate_similarity_with_tolerance.py:159-164 | every kept score lies in (0, 100] |
| SimilarityEngine.ScorePairs | calculate_similarity_with_tolerance.py:114-166 | the loop yields exactly the kept lines, in pair order; it fails exactly when a passing pair has no similarity column to merge on |
| SimilarityEngine.BucketsFacts | calculate_similarity_with_tolerance.py:82-89 | the buckets are ascending and disjoint; each holds more than one find, all with one bucket key |
| SimilarityEngine.Candidates | calculate_similarity_with_tolerance.py:108-112 | the pairs of every bucket of the survivors; CandidatesOnce and SameKeyIsCandidate state which pairs these are |
| SimilarityEngine.CandidatesOnce | calculate_similarity_with_tolerance.py:108-112 | the candidate pairs never repeat, number Σ C(\|b\|, 2), and are exactly the pairs within one bucket |
| SimilarityEngine.TwinsPaired | calculate_similarity_with_tolerance.py:89-112 | two positions with one key always form a pair of the groups of more than one position |
| SimilarityEngine.SameKeyIsCandidate | calculate_similarity_with_tolerance.py:86-112 | two survivors with the same compare-column values and the same two bins always form a candidate pair |
| SimilarityEngine.CountMatches | calculate_similarity_with_tolerance.py:108-115 | the pair count is Σ C(\|b\|, 2) |
| SimilarityEngine.BucketPairColumns | calculate_similarity_with_tolerance.py:86-89 | the two finds of a pair from one bucket agree on every exact-match column |
| SimilarityEngine.BucketPairsAgree | calculate_similarity_with_tolerance.py:141-152 | inside a bucket the compare-column and CoinGroups checks never reject |
| SimilarityEngine.NonZeroBinsPassDistance | calculate_similarity_with_tolerance.py:122-127 | with positive tolerances, finds sharing non-zero bins on both axes pass the coordinate re-check |
| SimilarityEngine.NegativeToleranceRejectsAll | calculate_similarity_with_tolerance.py:123-127 | a negative tolerance makes the re-check reject every pair |
| SimilarityEngine.PairSymmetric | calculate_similarity_with_tolerance.py:122-161 | whether a pair passes, and its score, do not depend on the order of the two finds |
| SimilarityEngine.ScoreExtremes | calculate_similarity_with_tolerance.py:154-163 | a passing pair with equal tuple sets scores 100; it scores 0 exactly when the sets are disjoint |
| SimilarityEngine.CandidatesEvaluable | calculate_similarity_with_tolerance.py:105-121 | every candidate pair names two surviving finds |
| SimilarityEngine.RankedPairs | calculate_similarity_with_tolerance.py:163-169 | the run's result lines: the kept lines of the candidate pairs, ranked; RankedPairsFacts states what they are |
| SimilarityEngine.RankedKept | calculate_similarity_with_tolerance.py:163-169 | the ranked output is non-increasing, holds exactly the lines of the qualifying pairs, scores each in (0, 100], and keeps ties in pair order |
| SimilarityEngine.RankedPairsFacts | calculate_similarity_with_tolerance.py:163-169 | the same facts for the run's own candidate pairs |
| SimilarityEngine.CalculateSimilarityBetweenPairs | calculate_similarity_with_tolerance.py:40-169 | each outcome (missing column, no finds remaining, failure, no suspicious finds) occurs exactly when the source reaches it; otherwise the output is the ranked lines of the qualifying candidate pairs |
| ConditionedDuplicates.Join | calculate_similarity.py:42-44 | the inner join of CoinGroups and CoinFinds on `cfID == ID`; MatchesOf and JoinMembers state its rows |
| ConditionedDuplicates.MatchesOf | calculate_similarity.py:42-44 | a CoinGroups row's join rows are exactly its pairings with the CoinFinds rows whose ID is its cfID |
| ConditionedDuplicates.JoinMembers | calculate_similarity.py:42-44 | a join row exists exactly for a CoinGroups row and a CoinFinds row with `cfID == ID`; unmatched rows do not appear |
| ConditionedDuplicates.JoinedColumns | calculate_similarity.py:42-44 | every join row carries the columns of both headers |
| ConditionedDuplicates.CandidateGroups | calculate_similarity.py:47 | the groups of the join by the "same" columns, or one group of all rows; CandidateGroupsFacts states what they are |
| ConditionedDuplicates.CandidateGroupsFacts | calculate_similarity.py:47 | the groups are disjoint, ascending and cover every join row; the rows of a group agree on every "same" column; with no "same" column there is one group of all rows |
| ConditionedDuplicates.GroupValues | calculate_similarity.py:53-55 | the distinct values of a CoinGroups column in a group (what `nunique` counts) |
| ConditionedDuplicates.FindValues | calculate_similarity.py:59-61 | the distinct values of a CoinFinds column in a group |
| ConditionedDuplicates.Qualifies | calculate_similarity.py:52-66 | both conditions on one group; QualifiesAgree and QualifiesDiffer state what they imply |
| ConditionedDuplicates.Qualifying | calculate_similarity.py:51-66 | a group is reported exactly when every "different" column has more than one distinct value in it and every CoinFinds "same" column has exactly one |
| ConditionedDuplicates.QualifiesAgree | calculate_similarity.py:59-61 | the rows of a qualifying group agree on every CoinFinds "same" column |
| ConditionedDuplicates.QualifiesDiffer | calculate_similarity.py:53-55 | a qualifying group has two distinct rows that differ on each "different" column |
| ConditionedDuplicates.ReportedRowsAgree | calculate_similarity.py:47-66 | the rows of a reported group agree on the "same" CoinGroups columns and on the CoinFinds "same" columns |
| ConditionedDuplicates.ReportedRowsDiffer | calculate_similarity.py:53-66 | each "different" column differs on two rows of a reported group; with such a column, a single-row group is never reported |
| ConditionedDuplicates.QualifyingAll | calculate_similarity.py:52-63 | with both condition lists empty, every group qualifies |
| ConditionedDuplicates.NoConditionsReportsAll | calculate_similarity.py:52-63 | with both condition lists empty, every candidate group is reported |
| ConditionedDuplicates.ReportGroups | calculate_similarity.py:48-75 | the loop reports exactly the qualifying groups, in order, and the flag is set exactly when one was reported |
| ConditionedDuplicates.FindConditionedDuplicatesWithJoin | calculate_similarity.py:22-75 | the first missing CoinGroups or CoinFinds column is reported when there is one; it fails when there is no cfID to join on; otherwise it reports the qualifying groups of the join, with the "no duplicates" line exactly when none qualifies |
| ExactDuplicates.DuplicateGroups | testread.py:29-34 | the groups by the key columns that hold more than one row; DuplicateGroupsAgree, DuplicateGroupsCover, DuplicateGroupsMaximal and NoDuplicatesIffDistinct state what they are |
| ExactDuplicates.DuplicateGroupsAgree | testread.py:29-34 | the reported groups are disjoint and ascending; each has more than one row, and its rows agree on every key column |
| ExactDuplicates.DuplicateGroupsCover | testread.py:29-34 | a row is reported exactly when another row agrees with it on every key column |
| ExactDuplicates.DuplicateGroupsMaximal | testread.py:29 | a reported group holds every row that agrees with its rows on the key columns |
| ExactDuplicates.NoDuplicatesIffDistinct | testread.py:30-41 | nothing is reported exactly when no two rows agree on every key column |
| ExactDuplicates.ReportRepeated | testread.py:30-41 | the loop reports exactly the groups of more than one row, in order, and the flag is set exactly when one was reported |
| ExactDuplicates.FindExactDuplicates | testread.py:14-41 | the first missing column is reported when there is one; it fails when there is no key column and the file has rows; otherwise it reports the groups of more than one row, with the "no exact duplicates" line exactly when there is none |

## Left out

- Reading the CSV files, writing the output file, the exact text of each message and the `to_string` rendering of a reported group: the model returns the outcome that decides what is written.
- The `FileNotFoundError` handlers: files are given as rows. The generic `except` is modelled as `Failed` only for the causes named above. The engine fails on a zero tolerance when some find survives the pre-filter, and on an empty similarity column list when some candidate pair passes every check (only then is `pd.merge` reached). The conditioned finder fails on a missing `cfID`. The exact finder fails on an empty key list when the file has rows; on a file with no rows pandas does not raise, and the "no exact duplicates" line is written.
- The `tqdm` progress bar: UI only.
- Floating point:
  - coordinates and scores are exact reals;
  - rounding at bin edges is not modelled;
  - the `.2f` formatting of scores is not modelled.
- Blank cells (NaN): cells are always values. This leaves out that:
  - pandas `groupby` drops rows with a NaN key;
  - `nunique` ignores NaN;
  - `str(NaN)` is `"nan"`;
  - a NaN coordinate makes `int()` raise.
- Group order: pandas `groupby` visits keys in sorted order, while the model visits them in order of first appearance. This changes only the order of the candidate pairs (and so the order of equal-score lines after the stable sort) and the order of reported groups, not which pairs or groups appear.
- SimilarityEngine.CalculateSimilarityBetweenPairs: the fixed CoinFinds and CoinGroups columns (`ID`, `cf_num_coins_found`, the two coordinate columns, `cf_publication_ref`, `cfID`) are typed fields of the model. Their presence checks are not modelled; only the configurable column lists are checked.
- ConditionedDuplicates.Join: pandas renames columns present in both files (`_x` and `_y` suffixes). A join row here keeps the CoinGroups row and the CoinFinds row apart, so these renamings are not modelled. In the source, a configured column present in both files is renamed, so the later `groupby` or `group[...]` raises `KeyError` and the run writes "An error occurred"; the model reports groups for such a column instead.
- Value types: pandas dtype inference is not modelled. Numeric cells are exact reals and other cells are strings.
- find_by_id.py and find_by_id_from_similarity_csv.py are not part of this model: they only look up rows by ID and format links.
- setadmin.js is not part of this model: it sets an account claim through a network SDK.
- The scripts under "data scripts" are not part of this model. `combined (THE SCRIPT THAT YOU ACTUALLY USE).py` and `FINAL_COMBINED.py` hold a weighted, tagged variant of the engine: the overlap sums `cg_num_coins` per tuple and applies a min/max factor and a union weight, and pairs get "Highly Similar" and "Mixed Source" tags. The model leaves that variant out, along with those scripts' download, Firestore export and lookup routines, and get_data.py, which only downloads the data.
- Comparison across neighbouring bins: no file implements it.
