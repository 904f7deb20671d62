/**
  The mathematical view of the frequency sketch: the hash parameters of its rows,
  what every counter must hold after a stream has been ingested, the estimate
  taken as the minimum over the rows, and the properties of that estimate.
 */
module CountMin {
  import opened Hashing

  /** The prime modulus p of every row's hash. */
  const Prime: int := 123457
  /** n_buckets: the number of buckets (the width) of every row. */
  const NBuckets: int := 10000
  /** The number of rows (hash functions) the original program uses. */
  const DefaultDepth: nat := 5

  /** One (a, b) coefficient pair per row, the shared modulus and the width. */
  datatype HashParams = HashParams(a: seq<int>, b: seq<int>, p: int, width: int)
  {
    predicate Valid()
    {
      0 < |a| && |a| == |b| && p > 0 && width > 0
    }

    function Depth(): nat
    {
      |a|
    }

    /** The bucket of item x in the given row. */
    function Bucket(row: nat, x: int): (k: int)
      requires Valid() && row < Depth()
      ensures 0 <= k < width
    {
      HashFun(a[row], b[row], p, width, x)
    }

    /** The buckets of x in all rows, in row order. */
    function Buckets(x: int): (ks: seq<int>)
      requires Valid()
      ensures |ks| == Depth()
      ensures forall row :: 0 <= row < |ks| ==> ks[row] == Bucket(row, x)
    {
      seq(Depth(), row requires 0 <= row < Depth() => Bucket(row, x))
    }
  }

  /** The exact number of occurrences of x in the stream. */
  function Occurrences(s: seq<int>, x: int): (n: nat)
    ensures n <= |s|
  {
    if s == [] then 0
    else Occurrences(s[..|s| - 1], x) + (if s[|s| - 1] == x then 1 else 0)
  }

  /** How many items of the stream the given row sends to the given bucket. */
  function RowCount(h: HashParams, s: seq<int>, row: nat, bucket: int): (n: nat)
    requires h.Valid() && row < h.Depth()
    ensures n <= |s|
  {
    if s == [] then 0
    else RowCount(h, s[..|s| - 1], row, bucket) + (if h.Bucket(row, s[|s| - 1]) == bucket then 1 else 0)
  }

  /** Python's min over a non-empty list. */
  function Min(vals: seq<nat>): (m: nat)
    requires |vals| > 0
    ensures m in vals
    ensures forall i :: 0 <= i < |vals| ==> m <= vals[i]
  {
    if |vals| == 1 then vals[0]
    else
      var rest := Min(vals[1..]);
      if vals[0] <= rest then vals[0] else rest
  }

  /** The counter of x's bucket in each row. */
  function RowEstimates(h: HashParams, s: seq<int>, x: int): (vals: seq<nat>)
    requires h.Valid()
    ensures |vals| == h.Depth()
    ensures forall row :: 0 <= row < |vals| ==> vals[row] == RowCount(h, s, row, h.Bucket(row, x))
  {
    seq(h.Depth(), row requires 0 <= row < h.Depth() => RowCount(h, s, row, h.Bucket(row, x)))
  }

  /** The sketch's estimate of the frequency of x: the least of its row counters. */
  function Estimate(h: HashParams, s: seq<int>, x: int): nat
    requires h.Valid()
  {
    Min(RowEstimates(h, s, x))
  }

  /** Sum of one row's counters over the buckets lo .. hi - 1. */
  function BucketSum(h: HashParams, s: seq<int>, row: nat, lo: int, hi: int): nat
    requires h.Valid() && row < h.Depth()
    decreases hi - lo
  {
    if lo >= hi then 0 else RowCount(h, s, row, lo) + BucketSum(h, s, row, lo + 1, hi)
  }

  /** Ingesting one more item adds one to exactly that item's bucket of the row. */
  lemma RowCountSnoc(h: HashParams, s: seq<int>, x: int, row: nat, bucket: int)
    requires h.Valid() && row < h.Depth()
    ensures RowCount(h, s + [x], row, bucket)
            == RowCount(h, s, row, bucket) + (if h.Bucket(row, x) == bucket then 1 else 0)
  {
    assert (s + [x])[..|s|] == s;
  }

  lemma OccurrencesSnoc(s: seq<int>, x: int, y: int)
    ensures Occurrences(s + [x], y) == Occurrences(s, y) + (if x == y then 1 else 0)
  {
    assert (s + [x])[..|s|] == s;
  }

  /** An item occurs in the stream exactly when its true count is positive. */
  lemma {:induction false} OccursIffPositive(s: seq<int>, x: int)
    ensures Occurrences(s, x) > 0 <==> x in s
  {
    if s != [] {
      var init := s[..|s| - 1];
      OccursIffPositive(init, x);
      assert s == init + [s[|s| - 1]];
      assert x in s <==> x in init || x == s[|s| - 1];
    }
  }

  /** Every occurrence of x lands in x's own bucket: no row undercounts x. */
  lemma {:induction false} RowCountCoversOccurrences(h: HashParams, s: seq<int>, row: nat, x: int)
    requires h.Valid() && row < h.Depth()
    ensures RowCount(h, s, row, h.Bucket(row, x)) >= Occurrences(s, x)
  {
    if s != [] {
      RowCountCoversOccurrences(h, s[..|s| - 1], row, x);
    }
  }

  /** The estimate never underestimates, and never exceeds any single row's counter. */
  lemma {:induction false} NoUnderestimate(h: HashParams, s: seq<int>, x: int)
    requires h.Valid()
    ensures Estimate(h, s, x) >= Occurrences(s, x)
    ensures forall row :: 0 <= row < h.Depth() ==> Estimate(h, s, x) <= RowCount(h, s, row, h.Bucket(row, x))
  {
    var vals := RowEstimates(h, s, x);
    var row :| 0 <= row < |vals| && vals[row] == Min(vals);
    RowCountCoversOccurrences(h, s, row, x);
  }

  /** Counters only grow as the stream grows. */
  lemma {:induction false} RowCountMonotone(h: HashParams, s: seq<int>, t: seq<int>, row: nat, bucket: int)
    requires h.Valid() && row < h.Depth()
    ensures RowCount(h, s + t, row, bucket) >= RowCount(h, s, row, bucket)
  {
    if t != [] {
      var init := t[..|t| - 1];
      RowCountMonotone(h, s, init, row, bucket);
      assert s + t == (s + init) + [t[|t| - 1]];
      RowCountSnoc(h, s + init, t[|t| - 1], row, bucket);
    } else {
      assert s + t == s;
    }
  }

  /** The estimate of any item never decreases as more items are ingested. */
  lemma {:induction false} EstimateMonotone(h: HashParams, s: seq<int>, t: seq<int>, x: int)
    requires h.Valid()
    ensures Estimate(h, s + t, x) >= Estimate(h, s, x)
  {
    var after := RowEstimates(h, s + t, x);
    var row :| 0 <= row < |after| && after[row] == Min(after);
    RowCountMonotone(h, s, t, row, h.Bucket(row, x));
  }

  /** On the empty stream every estimate is zero. */
  lemma EmptyEstimate(h: HashParams, x: int)
    requires h.Valid()
    ensures Estimate(h, [], x) == 0
  {
    var vals := RowEstimates(h, [], x);
    assert vals[0] == 0;
  }

  /** One more item adds one to the row sum exactly when its bucket lies in lo .. hi - 1. */
  lemma {:induction false} BucketSumSnoc(h: HashParams, s: seq<int>, x: int, row: nat, lo: int, hi: int)
    requires h.Valid() && row < h.Depth()
    ensures BucketSum(h, s + [x], row, lo, hi)
            == BucketSum(h, s, row, lo, hi) + (if lo <= h.Bucket(row, x) < hi then 1 else 0)
    decreases hi - lo
  {
    if lo < hi {
      RowCountSnoc(h, s, x, row, lo);
      BucketSumSnoc(h, s, x, row, lo + 1, hi);
    }
  }

  /** Every row's counters sum to the number of items ingested. */
  lemma {:induction false} RowSumIsLength(h: HashParams, s: seq<int>, row: nat)
    requires h.Valid() && row < h.Depth()
    ensures BucketSum(h, s, row, 0, h.width) == |s|
  {
    if s == [] {
      EmptyBucketSum(h, row, 0, h.width);
    } else {
      var init := s[..|s| - 1];
      RowSumIsLength(h, init, row);
      assert s == init + [s[|s| - 1]];
      BucketSumSnoc(h, init, s[|s| - 1], row, 0, h.width);
    }
  }

  lemma {:induction false} EmptyBucketSum(h: HashParams, row: nat, lo: int, hi: int)
    requires h.Valid() && row < h.Depth()
    ensures BucketSum(h, [], row, lo, hi) == 0
    decreases hi - lo
  {
    if lo < hi {
      EmptyBucketSum(h, row, lo + 1, hi);
    }
  }
}
