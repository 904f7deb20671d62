/**
  The frequency sketch as the program keeps it: a table from bucket to one counter
  per row (`results`), a cache from item to its bucket in each row
  (`hash_fn_inds`) and the number of items processed (`total_word_count`),
  updated in place one row at a time, then queried by taking the least of an
  item's row counters.
 */
module Sketch {
  import opened Hashing
  import opened CountMin

  datatype Option<T> = None | Some(value: T)

  /** A counter of the table; a bucket never touched reads as zero. */
  function Cell(table: map<int, seq<nat>>, bucket: int, row: nat): nat
  {
    if bucket in table && row < |table[bucket]| then table[bucket][row] else 0
  }

  /** The list of n zeros a fresh bucket or cache entry starts as. */
  function Zeros(n: nat): (z: seq<nat>)
    ensures |z| == n && forall i :: 0 <= i < n ==> z[i] == 0
  {
    seq(n, _ => 0)
  }

  class FrequencySketch {
    const params: HashParams
    /** bucket -> one counter per row */
    var table: map<int, seq<nat>>
    /** item -> its bucket in each row */
    var bucketOf: map<int, seq<int>>
    /** the number of stream items processed */
    var total: nat
    /** the items ingested so far, in order */
    ghost var stream: seq<int>

    /** Every list in either map has one entry per row. */
    ghost predicate Shaped()
      reads this
    {
      && params.Valid()
      && (forall k :: k in table ==> |table[k]| == params.Depth())
      && (forall y :: y in bucketOf ==> |bucketOf[y]| == params.Depth())
    }

    /** The state between two stream items. */
    ghost predicate Valid()
      reads this
    {
      && Shaped()
      && total == |stream|
      && (forall k :: k in table ==> 0 <= k < params.width)
      && (forall y :: y in bucketOf <==> y in stream)
      && (forall y :: y in bucketOf ==> bucketOf[y] == params.Buckets(y))
      && (forall k, row :: 0 <= row < params.Depth() ==> Cell(table, k, row) == RowCount(params, stream, row, k))
    }

    /**
      An empty sketch over the first `depth` coefficient pairs, with the program's
      modulus and width.
     */
    constructor (hashA: seq<int>, hashB: seq<int>, depth: nat)
      requires 0 < depth <= |hashA| && depth <= |hashB|
      ensures Valid()
      ensures params == HashParams(hashA[..depth], hashB[..depth], Prime, NBuckets)
      ensures table == map[] && bucketOf == map[] && stream == []
    {
      params := HashParams(hashA[..depth], hashB[..depth], Prime, NBuckets);
      table := map[];
      bucketOf := map[];
      total := 0;
      stream := [];
    }

    /**
      update_hashtable: add one to row fnNum's counter of bucket hashInd, creating
      the bucket as a list of zeros the first time, and record hashInd as x's
      bucket in row fnNum.
     */
    method Update(hashInd: int, fnNum: nat, x: int)
      requires Shaped() && fnNum < params.Depth()
      modifies this`table, this`bucketOf
      ensures Shaped()
      ensures table.Keys == old(table.Keys) + {hashInd}
      ensures hashInd !in old(table) ==> table[hashInd] == Zeros(params.Depth())[fnNum := 1]
      ensures forall k, row :: 0 <= row < params.Depth() ==>
                Cell(table, k, row) == Cell(old(table), k, row) + (if k == hashInd && row == fnNum then 1 else 0)
      ensures bucketOf.Keys == old(bucketOf.Keys) + {x}
      ensures forall y :: y in old(bucketOf) && y != x ==> bucketOf[y] == old(bucketOf[y])
      ensures bucketOf[x] == (if x in old(bucketOf) then old(bucketOf[x]) else Zeros(params.Depth()))[fnNum := hashInd]
    {
      if hashInd !in table {
        table := table[hashInd := Zeros(params.Depth())];
      }
      var counters := table[hashInd];
      counters := counters[fnNum := counters[fnNum] + 1];
      table := table[hashInd := counters];

      if x !in bucketOf {
        bucketOf := bucketOf[x := Zeros(params.Depth())];
      }
      var inds := bucketOf[x];
      inds := inds[fnNum := hashInd];
      bucketOf := bucketOf[x := inds];
    }

    /**
      One pass of the ingestion loop: update every row at x's bucket for that row,
      then count the item.
     */
    method Ingest(x: int)
      requires Valid()
      modifies this
      ensures Valid()
      ensures stream == old(stream) + [x] && total == old(total) + 1
      ensures forall k, row :: 0 <= row < params.Depth() ==>
                Cell(table, k, row) == Cell(old(table), k, row) + (if k == params.Bucket(row, x) then 1 else 0)
      ensures forall row :: 0 <= row < params.Depth() ==>
                bucketOf[x][row] == HashFun(params.a[row], params.b[row], params.p, params.width, x)
      ensures forall y :: y != x ==> (y in bucketOf <==> y in old(bucketOf))
      ensures forall y :: y != x && y in old(bucketOf) ==> bucketOf[y] == old(bucketOf[y])
    {
      ghost var s := stream;
      var d := params.Depth();
      for i := 0 to d
        invariant Shaped()
        invariant stream == s && total == |s|
        invariant forall k :: k in table ==> 0 <= k < params.width
        invariant forall y :: y != x ==> (y in bucketOf <==> y in s)
        invariant forall y :: y != x && y in bucketOf ==> bucketOf[y] == params.Buckets(y)
        invariant x in s ==> x in bucketOf && bucketOf[x] == params.Buckets(x)
        invariant i > 0 ==> x in bucketOf
        invariant x in bucketOf ==> forall j :: 0 <= j < i ==> bucketOf[x][j] == params.Bucket(j, x)
        invariant forall k, row :: 0 <= row < i ==> Cell(table, k, row) == RowCount(params, s + [x], row, k)
        invariant forall k, row :: i <= row < d ==> Cell(table, k, row) == RowCount(params, s, row, k)
        invariant forall k, row :: 0 <= row < d ==>
                    Cell(table, k, row) == Cell(old(table), k, row) + (if row < i && k == params.Bucket(row, x) then 1 else 0)
      {
        forall k ensures RowCount(params, s + [x], i, k)
                         == RowCount(params, s, i, k) + (if params.Bucket(i, x) == k then 1 else 0) {
          RowCountSnoc(params, s, x, i, k);
        }
        Update(params.Bucket(i, x), i, x);
      }
      assert bucketOf[x] == params.Buckets(x);
      total := total + 1;
      stream := s + [x];
    }

    /** The ingestion loop over a whole stream. */
    method IngestAll(items: seq<int>)
      requires Valid()
      modifies this
      ensures Valid()
      ensures stream == old(stream) + items && total == old(total) + |items|
    {
      for n := 0 to |items|
        invariant Valid()
        invariant stream == old(stream) + items[..n] && total == old(total) + n
      {
        assert items[..n + 1] == items[..n] + [items[n]];
        Ingest(items[n]);
      }
      assert items[..|items|] == items;
    }

    /**
      The query for one item: read x's cached bucket in each row, collect that
      row's counter, and return the least. An item never ingested has no cache
      entry, where the program fails with a missing key.
     */
    method Query(x: int) returns (r: Option<nat>)
      requires Valid()
      ensures r.None? <==> Occurrences(stream, x) == 0
      ensures r.Some? ==> r.value == Estimate(params, stream, x)
      ensures r.Some? ==> r.value >= Occurrences(stream, x)
      ensures r.Some? ==> forall row :: 0 <= row < params.Depth() ==> r.value <= Cell(table, params.Bucket(row, x), row)
    {
      OccursIffPositive(stream, x);
      if x !in bucketOf {
        return None;
      }
      var inds := bucketOf[x];
      var vals: seq<nat> := [];
      for fnNum := 0 to |inds|
        invariant |vals| == fnNum
        invariant forall j :: 0 <= j < fnNum ==> vals[j] == RowCount(params, stream, j, params.Bucket(j, x))
      {
        var ind := inds[fnNum];
        RowCountCoversOccurrences(params, stream, fnNum, x);
        assert Cell(table, ind, fnNum) > 0;
        vals := vals + [table[ind][fnNum]];
      }
      assert vals == RowEstimates(params, stream, x);
      NoUnderestimate(params, stream, x);
      r := Some(Min(vals));
    }

    /**
      The query loop: the estimate of every item of a stream, keyed by item, or
      None when some item was never ingested.
     */
    method QueryAll(items: seq<int>) returns (r: Option<map<int, nat>>)
      requires Valid()
      ensures r.None? <==> exists i :: 0 <= i < |items| && items[i] !in stream
      ensures r.Some? ==> r.value.Keys == set i | 0 <= i < |items| :: items[i]
      ensures r.Some? ==> forall y :: y in r.value ==> r.value[y] == Estimate(params, stream, y) >= Occurrences(stream, y)
    {
      var counts: map<int, nat> := map[];
      for n := 0 to |items|
        invariant forall i :: 0 <= i < n ==> items[i] in stream
        invariant counts.Keys == set i | 0 <= i < n :: items[i]
        invariant forall y :: y in counts ==> counts[y] == Estimate(params, stream, y) >= Occurrences(stream, y)
      {
        var est := Query(items[n]);
        if est.None? {
          OccursIffPositive(stream, items[n]);
          return None;
        }
        OccursIffPositive(stream, items[n]);
        counts := counts[items[n] := est.value];
      }
      r := Some(counts);
    }

    /** Sum of one row's table counters over the buckets lo .. hi - 1. */
    ghost function TableRowSum(row: nat, lo: int, hi: int): nat
      reads this
      decreases hi - lo
    {
      if lo >= hi then 0 else Cell(table, lo, row) + TableRowSum(row, lo + 1, hi)
    }

    /** The counters of every row add up to the number of items processed. */
    lemma RowSumsEqualTotal(row: nat)
      requires Valid() && row < params.Depth()
      ensures TableRowSum(row, 0, params.width) == total
    {
      TableRowSumMatches(row, 0, params.width);
      RowSumIsLength(params, stream, row);
    }

    lemma {:induction false} TableRowSumMatches(row: nat, lo: int, hi: int)
      requires Valid() && row < params.Depth()
      ensures TableRowSum(row, lo, hi) == BucketSum(params, stream, row, lo, hi)
      decreases hi - lo
    {
      if lo < hi {
        TableRowSumMatches(row, lo + 1, hi);
      }
    }

    /** The cached bucket of an ingested item is the one its hash gives. */
    lemma CachedBucketIsHash(x: int, row: nat)
      requires Valid() && x in stream && row < params.Depth()
      ensures bucketOf[x][row] == HashFun(params.a[row], params.b[row], params.p, params.width, x)
    {
    }
  }

  /**
    The program's two passes over one stream: ingest every item into a fresh
    sketch, then estimate every item of the same stream. Every item is then
    known, so no query fails.
   */
  method EstimateStream(hashA: seq<int>, hashB: seq<int>, depth: nat, items: seq<int>)
    returns (counts: map<int, nat>, processed: nat)
    requires 0 < depth <= |hashA| && depth <= |hashB|
    ensures processed == |items|
    ensures counts.Keys == set i | 0 <= i < |items| :: items[i]
    ensures forall y :: y in counts ==>
              counts[y] == Estimate(HashParams(hashA[..depth], hashB[..depth], Prime, NBuckets), items, y)
    ensures forall y :: y in counts ==> counts[y] >= Occurrences(items, y)
  {
    var sketch := new FrequencySketch(hashA, hashB, depth);
    sketch.IngestAll(items);
    assert sketch.stream == items;
    var result := sketch.QueryAll(items);
    if result.None? {
      assert false;
    }
    counts, processed := result.value, sketch.total;
  }
}
