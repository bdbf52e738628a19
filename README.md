# Support ticket classifier: a verified model of its core

The repository serves a fine-tuned text classifier that sorts customer
support tickets into three labels: "Billing", "Technical" and "Other". This
project models three parts of it in Dafny and proves properties of them.

- **The prediction service** (`src/api.py`), modelled in `api.dfy`,
  `rounding.dfy` and `stable_sort.dfy`.
  - At startup the service tries to load the classification pipeline. A load
    that raises leaves the model slot empty, and the service starts anyway.
  - `GET /` always returns the same welcome message.
  - `GET /health` answers "ok" exactly when a model is loaded.
  - `POST /predict` refuses with 503 "Model is not available." while the slot
    is empty. Otherwise it takes the classifier's per-label scores, rounds
    each to four decimals and sorts the list in place by descending
    confidence.
  - Python's sort is stable, so predictions with equal rounded confidences
    keep the classifier's order.
  - A confidence is kept as the whole number k of ten-thousandths that
    `round(score, 4)` rounds to, that is the decimal value k/10000, so no
    floating point is involved.
  - The in-place sort is an insertion sort on an array by adjacent swaps. It
    is proved to produce `StableSort.Sort`, and any sorted, stable
    rearrangement is proved equal to `Sort`. So the proved order is the one
    Python's own sort produces.
- **The label tables** (`src/config.py`), modelled in `config.dfy`: the
  ordered label list, the id-to-label and label-to-id maps built from it, the
  number of labels, and the map from raw ticket types to labels.
- **Data preparation and exploration** (`src/explore_data.py`), modelled in
  `explore_data.dfy`, `sampling.dfy` and `ngrams.dfy`.
  - Each raw ticket gets a label, with "Other" as the default.
  - Each ticket gets a text: subject, `". "`, description.
  - A stratified sample is drawn. Each label's group contributes
    `int(n_label * 300 / N)` random rows. Random rows not yet chosen then top
    the sample up to exactly 300.
  - For each label, the three most common words and word pairs of its texts
    are found: lower-case, split on whitespace, `zip` of consecutive words,
    `Counter(...).most_common(3)`.
  - Random choice is modelled as nondeterministic choice: any draw of the
    right size from the right rows is allowed.
  - Rows of the frame are identified by their position.

The model follows the code in these places, where a reader of the API might
expect otherwise:

- Empty ticket text is not rejected: the request model only requires a
  string.
- Scores are neither clamped to [0, 1] nor checked for NaN.
- Equal confidences keep the classifier's order, not the order of the label
  list.
- The answer has one prediction per entry the classifier returns. It is
  three only when the classifier scores each label once
  (`Api.RankingPermutesLabels`).

Python's `label` is a reserved word in Dafny, so label fields are named
`category`, and the frame's label and text columns are `labels` and `texts`.

## Model

| member | source | states |
|---|---|---|
| Api.Service.constructor | src/api.py:17-30 | a load that returns a pipeline fills the slot with it; a load that raises leaves the slot empty (`Failed`) and startup completes |
| Api.Service.ReadRoot | src/api.py:44-46 | the answer is the fixed welcome message, whatever the model slot holds |
| Api.Service.HealthCheck | src/api.py:48-50 | status is "ok" exactly when a model is loaded and "error" otherwise; `model_loaded` is true exactly when a model is loaded |
| Api.Service.PredictTicket | src/api.py:52-67 | with no model: the 503 error "Model is not available."; with a model: the formatted scores rearranged, non-increasing in confidence, equal confidences in the classifier's order (`IsRanking`), which is the stable descending sort of the formatted list |
| Api.Format | src/api.py:59-62 | one prediction per raw entry, with the same labels in the same order; each confidence is within half a ten-thousandth of the score |
| Api.RankingPermutesLabels | src/api.py:57-65 | the answer has exactly one prediction per raw entry, and its labels are the raw labels rearranged |
| Api.RankingKeepsEachLabelsScore | src/api.py:59-65 | when the classifier names each label once, each output confidence is `round(score, 4)` of the raw entry with the same label |
| Api.RankingIsUnique | src/api.py:65 | only one order is a sorted, stable rearrangement of the formatted list: the one the sort produces |
| Api.RankingConfidencesInRange | src/api.py:60 | scores in [0, 1] give confidences between 0 and 10000 ten-thousandths |
| Api.LabelsPermute | src/api.py:59-62 | two rearrangements of the same predictions carry the same labels, counted with multiplicity |
| Rounding.RoundHalfEven | src/api.py:60 | the result is within 0.5 of the input, and a value exactly halfway between two integers goes to the even one |
| Rounding.Round4 | src/api.py:60 | `round(score, 4)` in ten-thousandths is within half a unit of `score * 10^4` |
| Rounding.Round4Monotone | src/api.py:60 | rounding never reverses the order of two scores |
| Rounding.Round4InUnitRange | src/api.py:60 | a probability in [0, 1] rounds to between 0 and 10000 |
| StableSort.SortInPlace | src/api.py:65 | the array afterwards holds `Sort` of its old contents |
| StableSort.InsertAt | src/api.py:65 | moving element `i` left past every smaller key leaves the array as the old prefix with that element inserted, then the untouched rest |
| StableSort.Sort | src/api.py:65 | the stable descending sort `list.sort(key=..., reverse=True)` performs; its contract is stated by `SortIsStableSortedPermutation` and `SortIsUnique` |
| StableSort.SortIsStableSortedPermutation | src/api.py:65 | `Sort` returns a rearrangement of its input (same length, same multiset), non-increasing by key, with equal keys in their input order |
| StableSort.SortIsUnique | src/api.py:65 | any non-increasing rearrangement that keeps equal keys in input order is `Sort` of the input |
| StableSort.SortedStableUnique | src/api.py:65 | two non-increasing sequences with the same elements in the same order per key are equal |
| StableSort.InsertIsStable | src/api.py:65 | inserting an element appends it behind the elements with its key, leaving every other key's elements in order |
| Config.IdToLabel | src/config.py:29 | the ids are exactly the positions from 0 to the number of labels minus 1 |
| Config.LabelToId | src/config.py:30 | the keys are exactly the labels; each maps to a position holding that label, and a repeated label maps to its last position |
| Config.LabelRoundTrip | src/config.py:29-30 | `ID2LABEL[LABEL2ID[l]] == l` for every label |
| Config.IdRoundTripIffDistinct | src/config.py:28-30 | `LABEL2ID[ID2LABEL[i]] == i` for every id exactly when no label is repeated |
| Config.ConfiguredTables | src/config.py:28-38 | three distinct labels; the ids are 0, 1 and 2; the two maps are inverse both ways; every ticket type maps into the label list |
| ExploreData.MapLabel | src/explore_data.py:15 | the label is always one of the configured labels; a known type gets its label from the table, and any label other than "Other" comes from the table |
| ExploreData.CombineText | src/explore_data.py:18 | the text is the subject, then ". ", then the description; its length is the sum of theirs plus 2 |
| ExploreData.TicketFrame.constructor | src/explore_data.py:12 | the frame holds the loaded rows and no derived columns yet |
| ExploreData.TicketFrame.MapTicketTypes | src/explore_data.py:15 | the label column becomes the mapped ticket type of every row; every entry is a configured label |
| ExploreData.TicketFrame.CombineTexts | src/explore_data.py:18 | the text column becomes the combined subject and description of every row |
| ExploreData.SelectRows | src/explore_data.py:33 | the sampled rows, in order, each with its own row's text and label |
| ExploreData.PrepareAndSample | src/explore_data.py:7-36 | succeeds exactly when the frame has at least 300 rows; then it returns exactly 300 distinct rows of the frame with their own label and text; it starts with one draw per label group of that group's quota |
| ExploreData.QuotasFit | src/explore_data.py:22-24 | with at least as many rows as the sample size, every group can supply its quota |
| ExploreData.CategoryTexts | src/explore_data.py:58 | `df[df['label'] == label]['text']` in row order; `CategoryWordsPerText` states what its words are |
| ExploreData.ReportFor | src/explore_data.py:58-66 | one iteration of the loop; its contract is stated by `ReportIsTopThree` (size, order, counts, and which tied words or pairs are reported) and `CategoryCountsTotal` |
| ExploreData.RunEda | src/explore_data.py:56-67 | one report per configured label, in the configured order, each being the top-3 unigrams and bigrams of that label's texts |
| ExploreData.CategoryWords | src/explore_data.py:58-59 | `" ".join(texts).lower().split()`; `CategoryWordsPerText` states what its words are |
| ExploreData.CategoryWordsPerText | src/explore_data.py:58-59 | a label's words are the lower-cased words of its texts, text after text; joining with spaces merges no two words |
| ExploreData.LowerJoined | src/explore_data.py:58-59 | lower-casing the joined texts is joining the lower-cased texts |
| ExploreData.ReportIsTopThree | src/explore_data.py:62-66 | three entries each, or every distinct word (pair) when there are fewer, by non-increasing count; every count is the true number of occurrences; nothing left out occurs more often than something reported; equal counts are reported in the order `Counter` first met them, and the ones reported are the first met |
| ExploreData.CategoryCountsTotal | src/explore_data.py:59-62 | the word counts of a label add up to its number of words, and every reported count is positive |
| Sampling.Quota | src/explore_data.py:23 | `int(len(x) * SAMPLE_SIZE / len(df))`; its contract is stated by `QuotaIsFloor` and `QuotaWithinGroup` |
| Sampling.QuotaIsFloor | src/explore_data.py:23 | the quota is the group's share `n_label * S / N`, rounded down |
| Sampling.QuotaWithinGroup | src/explore_data.py:22-24 | when the sample is no larger than the frame, no quota exceeds its group's size |
| Sampling.QuotaSumScaled | src/explore_data.py:22-24 | the quotas together, times `N`, are at most `S` times the rows of their groups |
| Sampling.QuotasSumAtMostSampleSize | src/explore_data.py:22-24 | when every row belongs to a group, the quotas sum to at most `S` |
| Sampling.GroupSizesSum | src/explore_data.py:22 | the sizes of the groups of distinct labels add up to the rows carrying one of those labels |
| Sampling.Group | src/explore_data.py:22 | a row is in a label's group exactly when it carries that label |
| Sampling.DrawPossible | src/explore_data.py:23 | a draw of any size up to the pool's size exists |
| Sampling.Sample | src/explore_data.py:23 | succeeds exactly when the pool is large enough, and then returns that many distinct rows of the pool; otherwise it fails, and the model's `LargerThanPopulation` error records the two sizes |
| Sampling.SampleGroups | src/explore_data.py:22-24 | succeeds exactly when every group can supply its quota; then it is one draw per group in key order, distinct rows, as many as the quotas' sum |
| Sampling.SampleGroupsStep | src/explore_data.py:22-24 | one more group's draw keeps the rows distinct and adds exactly its quota |
| Sampling.TopUp | src/explore_data.py:26-30 | a sample already at the size is kept; a short one is topped up to exactly the size with rows not already in it, failing exactly when too few rows remain |
| Ngrams.IsSpace | src/explore_data.py:59 | the characters `str.isspace` accepts, at which `split()` breaks words; `WordsCoverText` and `WordsAcrossSpace` state how `Words` uses it |
| Ngrams.Lower | src/explore_data.py:59 | `str.lower()`: same length, `LowerChar` at every position; `LowerIgnoresCase` and `LowerProperties` state what it achieves |
| Ngrams.LowerChar | src/explore_data.py:59 | an upper-case ASCII letter becomes the lower-case letter at the same place in the alphabet; every other character is unchanged; whitespace stays whitespace |
| Ngrams.LowerIgnoresCase | src/explore_data.py:59 | two texts of equal length lower-case to the same text exactly when they differ only in the case of ASCII letters |
| Ngrams.LowerProperties | src/explore_data.py:59 | lower-casing keeps whitespace positions, leaves no upper-case letter, and is idempotent |
| Ngrams.Words | src/explore_data.py:59 | every word of `split()` is non-empty and contains no whitespace |
| Ngrams.WordsCoverText | src/explore_data.py:59 | the words, concatenated, are exactly the text's non-whitespace characters |
| Ngrams.WordsAcrossSpace | src/explore_data.py:58-59 | a whitespace character between two texts separates their words |
| Ngrams.JoinSpace | src/explore_data.py:58 | `" ".join(texts)`; `WordsOfJoined` and `SplitJoinRoundTrip` state how splitting undoes it |
| Ngrams.WordsOfJoined | src/explore_data.py:58-59 | splitting `" ".join(texts)` gives the words of each text in turn |
| Ngrams.SplitJoinRoundTrip | src/explore_data.py:58-59 | splitting undoes joining with spaces when every part is a word |
| Ngrams.Zip | src/explore_data.py:66 | `zip` pairs equal positions and stops at the shorter input |
| Ngrams.Bigrams | src/explore_data.py:66 | `zip(words, words[1:])`; its contract is stated by `BigramsAreConsecutivePairs` |
| Ngrams.BigramsAreConsecutivePairs | src/explore_data.py:66 | the bigrams are exactly the consecutive word pairs, in order; there are `max(0, len(words) - 1)` of them |
| Ngrams.Bump | src/explore_data.py:62 | counting one more element raises its count by one, or appends it with count 1 |
| Ngrams.FirstOccurrences | src/explore_data.py:62 | the distinct elements, each once |
| Ngrams.Tally | src/explore_data.py:62 | `Counter(xs)`; its contract is stated by `TallyCounts` |
| Ngrams.TallyCounts | src/explore_data.py:62 | `Counter(xs)` has one entry per distinct element, in order of first occurrence, each with its number of occurrences; the counts add up to `len(xs)` |
| Ngrams.MostCommon | src/explore_data.py:62-66 | `most_common(n)`: the entries by count, equal counts in insertion order; its contract is stated by `MostCommonIsTop` and `MostCommonOfTally` |
| Ngrams.MostCommonIsTop | src/explore_data.py:62-66 | `most_common(n)` keeps min(n, entries) entries, by non-increasing count, and no entry left out has a higher count than one kept; for every count, the entries kept with it are the first ones of `es` with it, in their order |
| Ngrams.MostCommonOfTally | src/explore_data.py:62-66 | `Counter(xs).most_common(n)` has n entries, or every distinct element when there are fewer, by non-increasing count, with true counts; no element left out occurs more often than one returned; the `Counter`'s keys are in first-occurrence order, and for every count the entries returned with it are the first of the `Counter`'s entries with it, in that order |

## Left out

- Api.Service.PredictTicket: an exception raised by the classifier during a
  request (answered with a server error by the web framework) is not
  modelled. A loaded classifier is a total function from text to scores.
- Api.Service.PredictTicket: `if not classifier` is modelled as "no model
  loaded"; a loaded pipeline object is taken to be truthy.
- Api.Format: Python returns the double nearest to k/10000, not k/10000
  itself. Distinct k give distinct doubles in the same order, so the sort is
  unaffected; the model does not carry the double.
- Api.Format: scores are the exact values of the floats as reals. NaN and
  infinities, and the fact that the scores come from a softmax summing to
  about 1, are not modelled.
- Api.Service.constructor: the pipeline construction (model files, tokenizer,
  CUDA device choice) is a foreign call. Its outcome is the constructor's
  parameter; the log lines it prints are left out.
- The web framework and request models (`FastAPI`, pydantic `BaseModel`
  classes, routing, JSON encoding of the response) are transport plumbing
  and are not modelled.
- Ngrams.LowerChar: only ASCII letters are lower-cased. Python's `str.lower`
  also maps other Unicode letters, some of them to two characters.
- ExploreData.CombineText: a missing subject or description cell (NaN in
  pandas, which makes the whole text NaN) is not modelled. Both are strings.
- Sampling.Quota: `int(n * S / N)` is computed as exact rational division
  rounded down. The float division agrees for every frame with fewer than
  2^44 rows. Beyond that, a quotient just below an integer could round up to
  it.
- Sampling.SampleGroups: the draws are visited in the key order given.
  PrepareAndSample passes the labels sorted, as `groupby` does. The row
  order inside one draw is any order: the random order is not modelled.
- ExploreData.PrepareAndSample: reading the CSV file (line 12), writing the
  sample to CSV (line 33) and printing are left out. The sample keeps each
  row's position, text and label; the frame's other columns are not carried
  along.
- ExploreData.RunEda: it returns the per-label reports instead of printing
  them. The label counts (`value_counts`, lines 46-47) and the text-length
  column with its statistics (lines 50-52) only feed printed output and are
  not modelled.
- The paths, directory creation and model name in `src/config.py` (lines
  3-20 and 24) are filesystem side effects and constants of the training
  scripts. They are not part of this model. `SAMPLE_SIZE` (line 21) is
  modelled as `Config.SampleSize`.
- Training (`src/train_transformer.py`, `src/train_baseline.py`) is not part
  of this model.
