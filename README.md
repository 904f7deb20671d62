# BirdFeeder frequency sketch: a Dafny model

This project models the Count-Min-style frequency sketch in `hw4_q4.py`. The sketch
estimates how often each integer item occurs in a long stream. It keeps several rows.
Each row has its own hash `((a * (x mod p) + b) mod p) mod n_buckets`, with
`p = 123457` and `n_buckets = 10^4`. For each item, every row adds one to the
counter at that item's bucket. The estimate for an item is the smallest of its
row counters.

The model keeps the program's own data layout, as fields of one class:

- `results` is the map `table`. It maps a bucket to a list with one counter per row,
  and the list is created as zeros the first time the bucket is hit.
- `hash_fn_inds` is the map `bucketOf`. It caches, for each item, its bucket in each row.
- `total_word_count` is the field `total`.

`update_hashtable`, one pass of the ingestion loop, the whole ingestion loop, the
per-item query and the query loop are methods of that class. Each is proved against
the specification in module `CountMin`. There, a ghost `stream` holds the items
ingested so far, and every counter equals `RowCount` (the number of stream items
that row sends to that bucket). Module `Hashing` holds `hash_fun` and Python's `%`,
whose result takes the sign of the divisor. It is written out because Dafny's `%`
is Euclidean.

Files: `hashing.dfy` (module `Hashing`), `count_min.dfy` (module `CountMin`),
`sketch.dfy` (module `Sketch`, class `FrequencySketch`).

Where a textbook Count-Min sketch and this code differ, the model follows the code:

- Layout. The counters are not a preallocated depth x width matrix. They sit in a
  dictionary keyed by bucket, with lists created on first use. The model uses that dictionary.
- The bucket cache. The code caches each item's buckets and reads the cache when it
  queries. The model does the same. The invariant `Valid` proves that the cache always
  equals the recomputed hash, so `Query` is also stated through recomputed buckets
  (`Estimate`).
- No configuration errors. The code does not validate its configuration. It has no
  `ConfigurationError`: `p` and `n_buckets` are constants, and a coefficient file with
  fewer than five rows fails with an index error. The constructor therefore *requires*
  at least `depth` coefficient pairs.

## Model

| member | source | states |
|---|---|---|
| Hashing.FloorMod | hw4_q4.py:11-13 | Python's `%`: the remainder is in `[0, m)` for a positive divisor and in `(m, 0]` for a negative one, and `x == (x // m) * m + r` |
| Hashing.FloorModUnique | hw4_q4.py:11-13 | the quotient and remainder of Python's `%` are the only pair in that range with `x == q * m + r` |
| Hashing.HashVal | hw4_q4.py:12 | the intermediate `hash_val` lies in `[0, p)` when `p > 0` |
| Hashing.HashFun | hw4_q4.py:10-13 | `hash_fun` returns a bucket in `[0, n_buckets)` when `n_buckets > 0`, and below `p` as well when `p > 0` |
| Hashing.FloorModIdempotent | hw4_q4.py:11 | reducing `x mod p` a second time changes nothing |
| Hashing.FloorModPeriodic | hw4_q4.py:11 | adding any multiple of `p` to `x` leaves `x mod p` unchanged |
| Hashing.HashDependsOnResidue | hw4_q4.py:10-13 | `hash_fun(x) == hash_fun(x mod p)`: only the residue of the item matters |
| Hashing.HashPeriodic | hw4_q4.py:10-13 | items that differ by a multiple of `p` get the same bucket in every row |
| CountMin.HashParams.Bucket | hw4_q4.py:23 | row `i`'s hash (`hash_fn_partial` with `a_i`, `b_i`, `p`, `n_buckets`) gives a bucket in `[0, width)` |
| CountMin.Occurrences | hw4_q4.py:78 | the true count of an item never exceeds the stream length |
| CountMin.OccursIffPositive | hw4_q4.py:71 | an item has a positive true count exactly when it occurs in the stream (when it has a cache entry) |
| CountMin.RowCount | hw4_q4.py:54-62 | what a row's counter at a bucket holds after a stream: never more than the stream length |
| CountMin.RowCountSnoc | hw4_q4.py:30 | ingesting one item adds one to that item's bucket in each row, and nothing to any other bucket |
| CountMin.Min | hw4_q4.py:76 | Python's `min` over a non-empty list returns an element that is no larger than any other element |
| CountMin.RowCountCoversOccurrences | hw4_q4.py:56-60 | every occurrence of `x` lands in `x`'s own bucket, so no row counts fewer than the true count |
| CountMin.NoUnderestimate | hw4_q4.py:71-76 | the estimate `min(vals)` is at least the true count of `x`, and at most every row counter at `x`'s buckets |
| CountMin.RowCountMonotone | hw4_q4.py:54-62 | counters never decrease as the stream grows |
| CountMin.EstimateMonotone | hw4_q4.py:54-76 | the estimate for any item never decreases as more items are ingested |
| CountMin.EmptyEstimate | hw4_q4.py:51-53 | before anything is ingested, every estimate is zero |
| CountMin.BucketSumSnoc | hw4_q4.py:56-60 | one more item adds one to a row's sum over a bucket range exactly when the item's bucket is in that range |
| CountMin.RowSumIsLength | hw4_q4.py:54-62 | every row's counters, summed over all buckets, equal the number of items ingested |
| Sketch.FrequencySketch.constructor | hw4_q4.py:15-20 | a fresh sketch uses the first `depth` coefficient pairs, `p = 123457` and `n_buckets = 10^4`, and starts with empty maps (lines 51-53) |
| Sketch.FrequencySketch.Update | hw4_q4.py:25-40 | `update_hashtable` adds exactly one to counter (`hash_ind`, `fn_num`) and changes no other counter. A bucket seen for the first time starts as a zero list with one entry per row. It sets `hash_fn_inds[x][fn_num] = hash_ind` and changes no other row of `x` and no other item |
| Sketch.FrequencySketch.Ingest | hw4_q4.py:55-62 | one loop pass adds one in each row at `x`'s bucket, caches `hash_fun(a_i, b_i, p, n_buckets, x)` as `x`'s bucket for each row, leaves the other items' entries alone, counts the item and keeps `Valid` |
| Sketch.FrequencySketch.IngestAll | hw4_q4.py:54-62 | after the ingestion loop, the ingested stream is extended by exactly the items, and `total_word_count` has grown by their number |
| Sketch.FrequencySketch.Query | hw4_q4.py:70-77 | the query fails (missing key) exactly for items never ingested. Otherwise it returns `Estimate`, which is at least the true count and at most each row counter at the item's buckets |
| Sketch.FrequencySketch.QueryAll | hw4_q4.py:69-77 | the query loop fails exactly when some queried item was never ingested. Otherwise `counts` has one entry per queried item, equal to its estimate and at least its true count |
| Sketch.FrequencySketch.RowSumsEqualTotal | hw4_q4.py:54-62 | the table's counters in each row sum to `total_word_count` |
| Sketch.FrequencySketch.CachedBucketIsHash | hw4_q4.py:33-38 | for an ingested item, the cached `hash_fn_inds[x][i]` equals `hash_fun(a_i, b_i, p, n_buckets, x)` |
| Sketch.EstimateStream | hw4_q4.py:50-77 | both passes over one stream: every item gets an estimate at least its true count, and `total_word_count` equals the stream length |

## Left out

- File reading and parsing are I/O and are not modelled: the coefficients (lines 18-20), the ground-truth counts (lines 42-48) and the stream (lines 50, 66). The coefficients and the stream are input sequences. The ground truth is the true count `Occurrences` of the stream.
- The epsilon, delta and numhash constants (lines 5-7), the relative errors (lines 79, 83-84) and all plotting (lines 86-115) use floating point or only produce reports. They are not modelled.
- The probabilistic bound (estimate above true count plus epsilon times N with probability at most delta) is a statement over random coefficient choices. It is not modelled. Only the one-sided, deterministic guarantees are proved.
- The depth is a constructor parameter (the program uses 5, `DefaultDepth`). The five unrolled calls at lines 56-60 become one loop over the rows.
- Hashing.HashFun: a zero modulus or width, which makes Python raise a division error, is excluded by a precondition. The program only passes its positive constants.
- Sketch.FrequencySketch.constructor: a coefficient file with fewer rows than the depth makes the program fail with an index error. The model requires enough rows instead of modelling that failure.
- Sketch.FrequencySketch.Update: `update_hashtable` returns the two dictionaries it mutated. The model updates the fields in place and returns nothing, which is the same objects in the program.
- Sketch.FrequencySketch.Query: the lookup of the ground truth at line 78 and its missing-key failure belong to the error report and are not modelled.
- `simulateWeatherData.py`, `simulateLocationPref.py`, `recommenderSystem.py`, `fruitYield.py` and `busyBayes.py` are random simulations with no stable behaviour to state. `gui.py` is console input and output. None of these is part of this model.
