# metalmind core, modelled in Dafny

metalmind saves web pages a user reads and lets them search those pages later.
This project models the deterministic core of that service and proves what it
promises:

- **Fingerprint** (`fingerprint.py`): the MinHash/LSH fingerprint. The word
  n-grams of a page form a set. Each n-gram hash goes through modular
  permutations with numpy's 64-bit wrap-around, the minimum is kept per
  permutation, the minima are cut into bands, and one cell per band is set
  in a zero vector (an `array<real>`).
- **Chunker** (`logic.py`): the two sentence groupers. `_group_sentences_by_tokens`
  is a greedy loop. `_group_sentences_with_overlap` runs a one-element work
  queue that bisects over-budget parts and re-appends the previous part.
- **Logic** (`logic.py`): `_save_article` (whitespace collapsing, the title
  pseudo-chunk, chunk/vector pairing, the call to `upsert_chunks`), the
  duplicate decision of `save_if_new` and the exception it passes on,
  the cursor of `recent_urls`, and `_uuid1_to_datetime`.
- **Db** (`db.py`): the row aggregation and ranking of `search`, the retry
  loop of `upsert_chunks`, and the `similar_page_exists` threshold.
- **Rehydrate** and **ScriptsRehydrate** (`rehydrate.py`, `scripts/rehydrate.py`):
  `uuid_from_timestamp` with its process-global `_last_timestamp`, and the
  replay counters. The global is the field of a `UuidClock` object.
- **Util** (`util.py`): `humanize_datetime` and `humanize_url`.
- Support modules:
  - **Uuid**: the RFC 4122 fields of a version-1 UUID and `UUID.time` (sections 4.1.2 and 4.1.4 of RFC 4122).
  - **Text**: the Python string built-ins the code calls.
  - **StableSort**: Python's stable `sorted`.
  - **Wrappers**: `Option` and `Result`.

Foreign code is passed in as function parameters: xxhash, tiktoken,
`nltk.sent_tokenize`, the Gemini embedder and the Cassandra queries. The
same goes for the random draws, `getnode()` and the clock. The ANN query
result is an input sequence of rows. `execute_concurrent_with_args` is a
function from (round, batch) to success flags.

Where the code and what its names or comments suggest differ, the model
follows the code:

- `_group_sentences_with_overlap` copies the previous part into the open
  group before handling *every* part, not only when a new group starts
  (logic.py:94-96). The test is whether that previous part is non-empty and
  fits the open group; the part about to be placed plays no role. So the
  copy can become the last entry of a group that the new part then closes.
  `Chunker.CopiesLast` states the test, and `Chunker.CopyFlags` records
  where it held.
- Only the second half of a bisected part goes back on the queue; the first
  half is placed even if it is still over budget (logic.py:87-91).
- The work queue of a sentence empties exactly when its chain of second
  halves reaches a part that fits, or reaches a part of at most one word
  whose second half fits (`Chunker.BisectionEnds`). Otherwise it never
  empties: a part of at most one word has its one word (or `""`) as its
  second half, and that half is its own second half. So once such a half
  is over budget, that same half is queued again and again (logic.py:86-90).
  `Chunker.BisectionNeverEnds` shows that every non-ending part queues
  another non-ending part. `Chunker.LoneOverBudgetWordRequeued` shows the
  simplest case, a lone over-budget word. The overlap grouper and its
  callers require exactly that the bisections end. `_group_sentences_by_tokens`
  does not bisect and requires nothing.
- `upsert_chunks` writes the page row before the chunk retries
  (db.py:98). A failed chunk batch therefore leaves a page without all its
  chunks: the write is not all-or-nothing.
- `search` adds every row's score to `total_score`, including rows past the
  third, whose chunks are dropped (db.py:165-166).

## Model

| member | source | states |
|---|---|---|
| Fingerprint.MhPermutations | fingerprint.py:12-20 | one (a, b) pair per draw; every a is in [1, P) and coprime with P = 2^61-1; a draw coprime with P is kept as a, any other draw is replaced by 1; every b is its draw, in [0, P) |
| Fingerprint.GcdOneMersenne | fingerprint.py:16 | the replacement coefficient 1 is coprime with the Mersenne prime |
| Fingerprint.NGrams | fingerprint.py:35 | no n-grams when n is 0 or the text has fewer than n words, otherwise one per window (words - n + 1) |
| Fingerprint.Permute | fingerprint.py:38-40 | a permuted hash (uint64 wrap of h*a and of +b, then mod P, masked) never exceeds _MAX_HASH |
| Fingerprint.MinPermuted | fingerprint.py:34-41 | the column minimum is at most _MAX_HASH and at most every permuted hash, and equals the sentinel or one of them |
| Fingerprint.BandBuckets | fingerprint.py:44-47 | n_bands buckets, each below bits_per_band |
| Fingerprint.BandIndices | fingerprint.py:50 | band i's cell lies in [i*bits_per_band, (i+1)*bits_per_band) |
| Fingerprint.BandIndicesIncreasing | fingerprint.py:50 | the band cells strictly increase, so no two coincide |
| Fingerprint.BandIndicesBelow | fingerprint.py:45-50 | with n_bands*bits_per_band within signature_size, every cell is inside the vector |
| Fingerprint.BandCells | fingerprint.py:44-50 | n_bands cells, strictly increasing, all below signature_size |
| Fingerprint.SignatureIndices | fingerprint.py:33-50 | raises exactly when the permutation count differs from n_minhashes, band_size is 0, n_bands is 0 or bits_per_band is 0; otherwise n_bands strictly increasing cells below signature_size |
| Fingerprint.EnumerateTokens | fingerprint.py:36 | iterating the token set lists each n-gram exactly once |
| Fingerprint.Indicator | fingerprint.py:49-52 | a new zero vector of signature_size cells with 1.0 exactly at the listed cells |
| Fingerprint.MhSignature | fingerprint.py:23-52 | the error mh_signature raises, or a new vector with 1.0 exactly at the band cells of the token hashes and 0 elsewhere |
| Fingerprint.MinPermutedOfSet | fingerprint.py:35-41 | a minhash depends only on the set of hashes, not on their order or repeats |
| Fingerprint.MinPermutedMonotone | fingerprint.py:38-41 | more hashes can only lower or keep a minhash |
| Fingerprint.HashesOfSameSet | fingerprint.py:35-37 | two iteration orders of one token set give the same set of hashes |
| Fingerprint.SignatureDeterministic | fingerprint.py:23-50 | same content, parameters and permutations give the same minhashes and cells, whatever the set's iteration order |
| Fingerprint.ShortTextAllSentinel | fingerprint.py:34-41 | fewer words than ngram_size: the token set is empty and every minhash is 2^32-1 |
| Fingerprint.MinhashesMonotone | fingerprint.py:38-41 | adding n-grams can only lower or keep every minhash |
| Fingerprint.SignatureOnes | fingerprint.py:49-52 | before normalisation exactly n_bands cells hold 1.0 and every other cell is 0 |
| Uuid.FromTimestamp | rehydrate.py:33-40 | time_low < 2^32, time_mid < 2^16, time_hi_version < 2^12, clock_seq_low < 2^8, clock_seq_hi_variant < 2^6, node as given |
| Uuid.TimeOfFromTimestamp | rehydrate.py:33-35 | the UUID time read back from the fields is the timestamp mod 2^60 |
| Uuid.ClockSeqOfFromTimestamp | rehydrate.py:32-37 | the clock sequence read back from the fields is the 14-bit clock_seq |
| Rehydrate.NextTimestamp | rehydrate.py:27-31 | at least the instant's UUID time, above the previous timestamp, and one of the two candidates |
| Rehydrate.UuidClock.constructor | rehydrate.py:19 | a fresh process has no last timestamp |
| Rehydrate.UuidClock.UuidFromTimestamp | rehydrate.py:20-40 | updates _last_timestamp to the bumped timestamp, strictly above the old one, and returns the UUID whose time is that timestamp mod 2^60 and whose clock sequence is the given bits |
| Rehydrate.ClockAfter | rehydrate.py:19-31 | after some calls the clock holds a timestamp, and before any it holds none |
| Rehydrate.StampsIncreasing | rehydrate.py:27-31 | successive calls in one process return strictly increasing timestamps |
| Rehydrate.StampsAtLeastInstant | rehydrate.py:27-31 | each timestamp is at least the UUID time of its instant |
| Rehydrate.ReplayCounts | rehydrate.py:65-76 | already-processed + saved + duplicates = all files; saved + duplicates = unprocessed files; saved = the files, counted in one pass over all of them, that had no marker and were new |
| ScriptsRehydrate.Replay | scripts/rehydrate.py:70-91 | replays exactly the unprocessed files in stem order, each under the UUID of its bumped timestamp and its clock sequence; saved counts the saved files, saved + duplicates = unprocessed, already-processed = the rest |
| ScriptsRehydrate.ReplayFiles | scripts/rehydrate.py:82-89 | one UUID per file from a fresh clock; each file increments exactly one counter |
| ScriptsRehydrate.ReplayOrderAscending | scripts/rehydrate.py:76-79 | the replayed files are in ascending stem order |
| ScriptsRehydrate.ReplayedExactlyUnprocessed | scripts/rehydrate.py:79 | a file is replayed if and only if it was staged and has no marker |
| ScriptsRehydrate.ReplayStampsIncreasing | scripts/rehydrate.py:31-35 | the replayed files get strictly increasing timestamps, even when stems repeat |
| StableSort.SortByCorrect | db.py:173 | sorted by key, a permutation of the input, and equal keys keep their input order |
| StableSort.SortByLength | db.py:173 | sorting keeps the length |
| StableSort.FilterSorted | scripts/rehydrate.py:76-79 | filtering a sorted list leaves it sorted and takes a sub-multiset |
| StableSort.FilterMember | scripts/rehydrate.py:79 | a kept element is in the input and passes the test |
| StableSort.FilterHas | scripts/rehydrate.py:79 | an element that passes the test is kept |
| StableSort.FilterFilter | rehydrate.py:72-74 | filtering by one test and then by another keeps what one filter by both tests keeps |
| Chunker.GroupByTokens | logic.py:148-168 | the groups concatenate to the sentences; only the first group can be empty, exactly when the first sentence alone is over budget; a group of two or more is within budget; each group closed because the next sentence did not fit |
| Chunker.AddByTokens | logic.py:155-162 | one sentence keeps the loop invariant and the running count equal to the group's token sum |
| Chunker.Halves | logic.py:87-90 | the first half splits into the first len//2 words, the queued half into the rest |
| Chunker.GroupWithOverlap | logic.py:68-114 | equals the reference fold over the parts of all sentences, and so meets everything Chunker.OverlapGroupsCorrect proves of it |
| Chunker.OverlapGroupsCorrect | logic.py:68-114 | every group is non-empty and a singleton or within budget; the groups concatenate to the parts in order, each preceded by a copy of the part before it exactly when that part is non-empty and fits the open group; a group was closed only because the first entry of the next one did not fit |
| Chunker.AddSentence | logic.py:78-108 | the work queue of one sentence performs one reference step for each part of that sentence, in order, and keeps the running count |
| Chunker.NextPart | logic.py:82-91 | pops the part whole and leaves the queue empty if it fits, otherwise takes its first half and queues its second half; the queued half's bisections still end, with a smaller measure |
| Chunker.AddPart | logic.py:93-108 | the new state is one reference step: the previous part is copied when it is non-empty and fits the open group, then the part is placed; the running count is the open group's token sum |
| Chunker.PlacePart | logic.py:99-106 | a part that fits joins the open group and no group closes; otherwise the open group is closed when non-empty and the part alone opens the next |
| Chunker.StepShape | logic.py:93-108 | one step keeps the groups non-empty and greedy and extends their concatenation by the copy (if made) and the part |
| Chunker.BisectionProgress | logic.py:86-90 | when the bisections of an over-budget part end, those of its queued half end too, with a smaller measure |
| Chunker.BisectionNeverEnds | logic.py:81-91 | when the bisections of a part do not end, it is over budget and its queued half's bisections do not end either, so the queue never empties |
| Chunker.LoneOverBudgetWordRequeued | logic.py:86-90 | a lone word over budget bisects into "" and itself, and its bisections never end |
| Text.WordsOfJoin | logic.py:87-90 | splitting a space-joined list of words gives the words back |
| Text.CollapseWhitespaceIsCollapsed | logic.py:116-117 | after re.sub(r'\s+', ' ', s) the only whitespace is single spaces |
| Text.CollapseWhitespaceIdempotent | logic.py:116-117 | collapsing whitespace twice is the same as once |
| Logic.Zip | logic.py:125 | as long as the shorter input, with the pairs taken by position |
| Logic.ChunkTexts | logic.py:120-122 | the joined groups, with the title in front exactly when it does not occur in the text |
| Logic.SaveArticle | logic.py:115-125 | the page row holds the collapsed text and title; the groups of the stripped sentences meet the overlap grouping's promise; chunks pair the chunk texts of those groups with their vectors by position; `upsert_chunks` then submits the retry rounds of those chunk rows and raises exactly when some are left, with their count |
| Logic.SaveIfNew | logic.py:196-208 | False exactly when a similar page exists, and then nothing is written; otherwise the collapsed page and the chunk texts of its overlap groups, paired with their vectors, go to `upsert_chunks`, and the result is True when every chunk row got in and the `upsert_chunks` exception, with the count left, when some did not |
| Logic.Uuid1ToDatetime | logic.py:170-172 | micros*10 <= uuid.time < micros*10 + 10, the floor of time/10 |
| Logic.Min | logic.py:220 | the minimum is one of the values and no larger than any |
| Logic.RecentUrls | logic.py:215-220 | each row gets the date of its UUID and the humanized label of that date's age; the cursor is present exactly when ten rows came back, and is then their oldest date |
| Logic.SavedAtOfReplayedUuid | logic.py:170-172 | the date read from a replayed UUID is the instant's microseconds since the Unix epoch plus the epoch distance |
| Db.Prefix | db.py:173 | s[:n]: a prefix of length min(len(s), n) |
| Db.Search | db.py:161-173 | the result is the top ten of the URL aggregates, stably sorted by total score, highest first |
| Db.AggregateSnoc | db.py:164-169 | one more row adds its score to its URL's total, appends its chunk and sets title and url_id only while fewer than three chunks are kept, and leaves every other URL unchanged |
| Db.AggregateFirstThreeRows | db.py:163-169 | a page keeps the chunks of the first three rows with its URL, in order, the title and url_id of the last of them, and the sum of all its rows' scores |
| Db.UrlsCover | db.py:161-172 | a URL is listed exactly when some row carries it |
| Db.UrlsDistinct | db.py:161-172 | no URL is listed twice |
| Db.UrlsFirstAppearance | db.py:163-172 | URLs are listed in order of first appearance |
| Db.GroupedPagesFilled | db.py:166-169 | each listed page has one to three chunks and a title and url_id |
| Db.TotalScoreCountsDroppedRows | db.py:165-166 | a page's total includes the rows beyond the third as well as the kept ones |
| Db.RankedLength | db.py:173 | at most ten pages come back, fewer only when fewer URLs occur |
| Db.RankedDescending | db.py:173 | the pages come back highest total first |
| Db.RankedIsTop | db.py:173 | no page left out scores higher than a page returned |
| Db.RankedStable | db.py:172-173 | pages with equal totals keep their first-appearance order |
| Db.UpsertChunks | db.py:98-119 | the page row is written once; the rounds are the retry batches; raises exactly when items are left, with their count |
| Db.FailedInOrder | db.py:114-115 | a round keeps exactly the items whose flag is false, each once, in their original order |
| Db.FailedMembers | db.py:114-115 | an item is kept exactly when some position holding it has a false flag |
| Db.SucceededNotResubmitted | db.py:114-115 | an item reported as written is not submitted again |
| Db.SubmittedRounds | db.py:111-117 | each round resubmits exactly the failures of the one before |
| Db.SubmittedBound | db.py:109-117 | the loop stops within the rounds its backoff allows, earlier only when nothing is left |
| Db.RetryAtMostSevenRounds | db.py:109-119 | at most seven rounds (0.5 s to 32 s), and an error only after the seventh |
| Db.LeftoverOfLastRound | db.py:111-119 | what is left is the failures of the last round, or everything if no round ran |
| Db.SimilarPageExists | db.py:212-218 | false on an empty result, otherwise true exactly when the top score is at least 0.95 |
| Util.HumanizeDatetime | util.py:7-28 | always a non-empty label |
| Util.HumanizeDatetimeLabels | util.py:11-28 | each label holds exactly for its range of the day component, checked before the months; the month labels only from 28 days on |
| Util.MonthsAgoStart | util.py:27-28 | a "Months Ago" label starts with a digit or minus sign, unlike the fixed labels |
| Util.Truncate80 | util.py:38 | at most 80 characters; kept whole under 80, otherwise the first 77 plus "..." |
| Util.Truncate80Idempotent | util.py:38 | truncating twice is truncating once |
| Util.HumanizeUrl | util.py:31-38 | hostname + path, at most 80 characters; unchanged when shorter than 80, otherwise its first 77 characters and "..." |

## Left out

- Fingerprint.MhSignature: stops before the L2 normalisation (fingerprint.py:55-57), which is floating point.
- Fingerprint.MhSignature: xxh64, the `\W+` split and the band hash are function parameters.
- Fingerprint.MhPermutations: the draws of `np.random.randint` are inputs. It is not proved that 2^61-1 is prime, so coprimality is stated through `Gcd` alone.
- `fingerprint.encode`, called at logic.py:196, is not defined in fingerprint.py. `save_if_new` therefore takes the fingerprint as an input.
- Uuid.FromTimestamp: the version and variant bits that `UUID(..., version=1)` sets are not modelled. `UUID.time` and `UUID.clock_seq` mask them off, so the values read back are unaffected.
- Chunker.GroupWithOverlap: requires that the bisections of every sentence end. These are exactly the inputs on which the source's loop returns; on the others it never returns (Chunker.BisectionNeverEnds).
- Logic.SaveArticle: requires the same of the article's sentences, for the same reason.
- Logic.SaveIfNew: requires the same whenever the page is saved.
- Logic.SaveArticle: `_encode` (logic.py:124) is the function parameter `encode`. An exception from the embedder, which would propagate out of `save_if_new`, is not modelled.
- Logic.SaveIfNew: the staging-file write (logic.py:177-193) is file-system I/O and is left out.
- Logic.SaveIfNew: the similarity query is an input, the best score or None.
- Logic.RecentUrls: the query is an input. `ageOf` stands for the day and month components of `relativedelta(now, saved_at)`, which reads the clock.
- Logic.Uuid1ToDatetime: a `datetime` is counted in microseconds since 1582-10-15. It requires the field ranges every `uuid.UUID` has.
- Logic.SavedAtOfReplayedUuid: stated for the first call of a process, whose timestamp is not bumped, and for timestamps that fit in 60 bits.
- Db.UpsertChunks: each round's results are the success flags of `execute_concurrent_with_args`. With `raise_on_first_error=True` the driver could raise instead; that exception path is not modelled.
- Db.UpsertChunks: the concurrency of 16 and `time.sleep` are left out. The backoff is counted in half-seconds.
- Db.Search: the ANN query is an input sequence of rows. Scores are `real`, not floats, so the sums are exact.
- Rehydrate.ReplayCounts: `pool.map(process_file, files)` passes one argument to the two-argument `process_file` (rehydrate.py:43, 74). As soon as any file is unprocessed this raises TypeError (missing `file_path`), so `rehydrate` never prints its counts. The counts are stated over an abstract per-file outcome `isNew`, the result `process_file` is evidently meant to return.
- Rehydrate.ReplayCounts: the process pool is left out.
- ScriptsRehydrate.Replay: line 86 of scripts/rehydrate.py evaluates `process_file(file_path)['result']` on the bool that `save_if_new` returns. That raises TypeError right after the first unprocessed file has been saved and marked, so the script stops there. The replay is stated over an abstract per-file outcome `isSaved`, the test line 86 is evidently meant to make.
- ScriptsRehydrate.Replay: the directory walk, the markers, gzip and JSON are inputs or left out.
- ScriptsRehydrate.StagedFile: a staged file carries its integer stem. `save_if_new` names staged files `{time_ns}.gz` (logic.py:178-180), so the two parses of the name, `int(file.split('.')[0])` (scripts/rehydrate.py:59) and `int(Path(x).stem)` (scripts/rehydrate.py:76), agree and never raise on them. Other names raise ValueError, which is not modelled.
- Util.HumanizeDatetime: takes the day and month components of `relativedelta(now, dt)`, since reading the clock is I/O.
- Util.HumanizeUrl: takes the hostname and path that `urlparse` extracts, so it assumes the URL has a host name. Without a netloc, `parsed.hostname` is None and `None + str` raises TypeError (util.py:37); that case is not modelled.
- The HTTP routes, the Cassandra schema and the other queries are not part of this model.
- So are `_is_different` (floating point), the summarizer and `load_snapshot`.
