/**
  Bucketing of entries by the first hash word, and the order in which
  buckets are resolved (src/generate.rs, lines 13-33 and 63-71).
*/
module Buckets {
  import opened Words

  /** Target average number of entries per bucket (`LAMBDA`). */
  const Lambda: nat := 5

  /** The three hash words of one entry under one seed. */
  datatype Triple = Triple(h0: Word, h1: Word, h2: Word)

  /** A bucket: its index and the entry positions it holds, in push order. */
  datatype Bucket = Bucket(index: nat, keys: seq<nat>)

  /** `table_len.div_ceil(LAMBDA)`. */
  function NumBuckets(n: nat): (r: nat)
    ensures r * Lambda >= n && r * Lambda < n + Lambda
    ensures r == 0 <==> n == 0
  {
    (n + Lambda - 1) / Lambda
  }

  /** The bucket an entry falls into: `h0 mod num_buckets`. */
  function BucketOf(hashes: seq<Triple>, i: nat): (b: nat)
    requires i < |hashes|
    ensures b < NumBuckets(|hashes|)
  {
    hashes[i].h0 % NumBuckets(|hashes|)
  }

  /** The positions among the first `i` entries that fall into bucket `b`, in increasing order. */
  function KeysIn(hashes: seq<Triple>, b: nat, i: nat): (keys: seq<nat>)
    requires i <= |hashes|
    ensures forall p :: 0 <= p < |keys| ==> keys[p] < i
  {
    if i == 0 then []
    else KeysIn(hashes, b, i - 1) + (if BucketOf(hashes, i - 1) == b then [i - 1] else [])
  }

  /** The buckets built from the first `i` entries. */
  function Layer(hashes: seq<Triple>, i: nat): (bs: seq<Bucket>)
    requires i <= |hashes|
    ensures |bs| == NumBuckets(|hashes|)
  {
    seq(NumBuckets(|hashes|), b requires 0 <= b => Bucket(b, KeysIn(hashes, b, i)))
  }

  /** The buckets after every entry has been pushed, in bucket-index order. */
  function InitialBuckets(hashes: seq<Triple>): (bs: seq<Bucket>)
    ensures |bs| == NumBuckets(|hashes|)
  {
    Layer(hashes, |hashes|)
  }

  /** Every listed position names an entry. */
  predicate KeysInRange(hashes: seq<Triple>, keys: seq<nat>)
  {
    forall j :: 0 <= j < |keys| ==> keys[j] < |hashes|
  }

  /** A bucket as the bucketing step produces it. */
  predicate Genuine(hashes: seq<Triple>, bucket: Bucket)
  {
    bucket.index < NumBuckets(|hashes|) && bucket.keys == KeysIn(hashes, bucket.index, |hashes|)
  }

  /** Every entry is pushed into exactly one bucket: the one its `h0` selects. */
  lemma {:induction false} KeysInMembers(hashes: seq<Triple>, b: nat, i: nat)
    requires i <= |hashes|
    ensures forall x: nat :: x in KeysIn(hashes, b, i) <==> x < i && BucketOf(hashes, x) == b
  {
    if i > 0 {
      KeysInMembers(hashes, b, i - 1);
    }
  }

  /** A bucket lists its entries in increasing position order, each once. */
  lemma {:induction false} KeysInIncreasing(hashes: seq<Triple>, b: nat, i: nat)
    requires i <= |hashes|
    ensures forall p, q :: 0 <= p < q < |KeysIn(hashes, b, i)| ==> KeysIn(hashes, b, i)[p] < KeysIn(hashes, b, i)[q]
  {
    if i > 0 {
      KeysInIncreasing(hashes, b, i - 1);
      KeysInMembers(hashes, b, i - 1);
    }
  }

  // ---------------------------------------------------------------------
  // Sizes

  /** The number of entry positions held by a sequence of buckets. */
  function TotalKeys(bs: seq<Bucket>): nat
  {
    if bs == [] then 0 else |bs[0].keys| + TotalKeys(bs[1..])
  }

  lemma {:induction false} TotalKeysUpdate(bs: seq<Bucket>, h: nat, x: Bucket)
    requires h < |bs|
    ensures TotalKeys(bs[h := x]) + |bs[h].keys| == TotalKeys(bs) + |x.keys|
  {
    if h > 0 {
      assert bs[h := x][1..] == bs[1..][h - 1 := x];
      TotalKeysUpdate(bs[1..], h - 1, x);
    }
  }

  lemma {:induction false} LayerTotal(hashes: seq<Triple>, i: nat)
    requires i <= |hashes|
    ensures TotalKeys(Layer(hashes, i)) == i
  {
    var nb := NumBuckets(|hashes|);
    if i == 0 {
      EmptyBucketsTotal(Layer(hashes, 0));
    } else {
      LayerTotal(hashes, i - 1);
      var h := BucketOf(hashes, i - 1);
      var prev := Layer(hashes, i - 1);
      forall b | 0 <= b < nb
        ensures Layer(hashes, i)[b] == prev[h := Bucket(h, prev[h].keys + [i - 1])][b]
      {
        assert KeysIn(hashes, b, i) == KeysIn(hashes, b, i - 1) + (if h == b then [i - 1] else []);
      }
      assert Layer(hashes, i) == prev[h := Bucket(h, prev[h].keys + [i - 1])];
      TotalKeysUpdate(prev, h, Bucket(h, prev[h].keys + [i - 1]));
    }
  }

  lemma {:induction false} EmptyBucketsTotal(bs: seq<Bucket>)
    requires forall p :: 0 <= p < |bs| ==> bs[p].keys == []
    ensures TotalKeys(bs) == 0
  {
    if bs != [] {
      EmptyBucketsTotal(bs[1..]);
    }
  }

  /** The buckets hold `n` entry positions in all. */
  lemma InitialBucketsTotal(hashes: seq<Triple>)
    ensures TotalKeys(InitialBuckets(hashes)) == |hashes|
  {
    LayerTotal(hashes, |hashes|);
  }

  // ---------------------------------------------------------------------
  // Bucket indices

  /** The set of bucket indices occurring in a sequence of buckets. */
  function Indices(bs: seq<Bucket>): set<nat>
  {
    if bs == [] then {} else {bs[0].index} + Indices(bs[1..])
  }

  /** No bucket index occurs twice. */
  predicate DistinctIndices(bs: seq<Bucket>)
  {
    forall p, q :: 0 <= p < q < |bs| ==> bs[p].index != bs[q].index
  }

  lemma {:induction false} IndicesMembers(bs: seq<Bucket>)
    ensures forall x :: x in Indices(bs) <==> exists p :: 0 <= p < |bs| && bs[p].index == x
  {
    if bs != [] {
      IndicesMembers(bs[1..]);
      forall x | x in Indices(bs) ensures exists p :: 0 <= p < |bs| && bs[p].index == x {
        if x != bs[0].index {
          assert x in Indices(bs[1..]);
          var p :| 0 <= p < |bs[1..]| && bs[1..][p].index == x;
          assert bs[p + 1].index == x;
        }
      }
      forall x | exists p :: 0 <= p < |bs| && bs[p].index == x ensures x in Indices(bs) {
        var p :| 0 <= p < |bs| && bs[p].index == x;
        if p > 0 {
          assert bs[1..][p - 1].index == x;
        }
      }
    }
  }

  // ---------------------------------------------------------------------
  // Ordering: `buckets.sort_by(|a, b| a.keys.len().cmp(&b.keys.len()).reverse())`

  /**
    The order a stable sort by descending size produces from buckets given in
    index order: larger buckets first, equal sizes by increasing index.
  */
  predicate Before(a: Bucket, b: Bucket)
  {
    |a.keys| > |b.keys| || (|a.keys| == |b.keys| && a.index < b.index)
  }

  predicate SortedBySize(bs: seq<Bucket>)
  {
    forall p, q :: 0 <= p < q < |bs| ==> Before(bs[p], bs[q])
  }

  /** Bucket indices strictly increase along the sequence. */
  predicate IndexOrdered(bs: seq<Bucket>)
  {
    forall p, q :: 0 <= p < q < |bs| ==> bs[p].index < bs[q].index
  }

  /** Inserts `x` in front of the first bucket no larger than it. */
  function Insert(x: Bucket, bs: seq<Bucket>): (r: seq<Bucket>)
  {
    if bs == [] then [x]
    else if |bs[0].keys| <= |x.keys| then [x] + bs
    else [bs[0]] + Insert(x, bs[1..])
  }

  /** Stable sort by descending number of keys (the model of `sort_by`). */
  function SortBySize(bs: seq<Bucket>): (r: seq<Bucket>)
  {
    if bs == [] then [] else Insert(bs[0], SortBySize(bs[1..]))
  }

  lemma {:induction false} InsertPermutes(x: Bucket, bs: seq<Bucket>)
    ensures multiset(Insert(x, bs)) == multiset(bs) + multiset{x}
    ensures TotalKeys(Insert(x, bs)) == |x.keys| + TotalKeys(bs)
  {
    if bs != [] && |bs[0].keys| > |x.keys| {
      InsertPermutes(x, bs[1..]);
      assert bs == [bs[0]] + bs[1..];
    }
  }

  lemma {:induction false} InsertSorted(x: Bucket, bs: seq<Bucket>)
    requires SortedBySize(bs)
    requires forall p :: 0 <= p < |bs| ==> x.index < bs[p].index
    ensures SortedBySize(Insert(x, bs))
  {
    if bs == [] {
    } else if |bs[0].keys| > |x.keys| {
      InsertSorted(x, bs[1..]);
      InsertPermutes(x, bs[1..]);
      var r := Insert(x, bs);
      assert r == [bs[0]] + Insert(x, bs[1..]);
      forall q | 0 < q < |r| ensures Before(r[0], r[q]) {
        assert r[q] in multiset(Insert(x, bs[1..]));
        assert r[q] == x || r[q] in bs[1..];
      }
    } else {
      var r := Insert(x, bs);
      assert r == [x] + bs;
      forall q | 0 < q < |r| ensures Before(r[0], r[q]) {
        if q > 1 {
          assert Before(bs[0], bs[q - 1]);
        }
      }
    }
  }

  /**
    The sort is a permutation, keeps the number of entry positions, and puts
    buckets given in index order into the order `Before`: sizes never increase,
    and buckets of equal size keep their original relative order.
  */
  lemma {:induction false} SortBySizeFacts(bs: seq<Bucket>)
    ensures multiset(SortBySize(bs)) == multiset(bs)
    ensures |SortBySize(bs)| == |bs|
    ensures TotalKeys(SortBySize(bs)) == TotalKeys(bs)
    ensures IndexOrdered(bs) ==> SortedBySize(SortBySize(bs))
  {
    if bs != [] {
      SortBySizeFacts(bs[1..]);
      InsertPermutes(bs[0], SortBySize(bs[1..]));
      assert bs == [bs[0]] + bs[1..];
      assert |multiset(SortBySize(bs))| == |multiset(bs)|;
      if IndexOrdered(bs) {
        var rest := SortBySize(bs[1..]);
        forall p | 0 <= p < |rest| ensures bs[0].index < rest[p].index {
          assert rest[p] in multiset(bs[1..]);
        }
        InsertSorted(bs[0], rest);
      }
    }
  }

  /** The buckets in the order `try_generate` resolves them. */
  function ResolutionOrder(hashes: seq<Triple>): seq<Bucket>
  {
    SortBySize(InitialBuckets(hashes))
  }

  /**
    The resolution order holds every bucket exactly once, each with the
    entries its index selects, largest first, and `n` entry positions in all.
  */
  lemma ResolutionOrderFacts(hashes: seq<Triple>)
    ensures |ResolutionOrder(hashes)| == NumBuckets(|hashes|)
    ensures forall p :: 0 <= p < |ResolutionOrder(hashes)| ==> Genuine(hashes, ResolutionOrder(hashes)[p])
    ensures forall p :: 0 <= p < |ResolutionOrder(hashes)| ==>
      ResolutionOrder(hashes)[p].index < NumBuckets(|hashes|) && KeysInRange(hashes, ResolutionOrder(hashes)[p].keys)
    ensures DistinctIndices(ResolutionOrder(hashes))
    ensures SortedBySize(ResolutionOrder(hashes))
    ensures forall i :: 0 <= i < |hashes| ==> BucketOf(hashes, i) in Indices(ResolutionOrder(hashes))
    ensures TotalKeys(ResolutionOrder(hashes)) == |hashes|
  {
    var init := InitialBuckets(hashes);
    var order := ResolutionOrder(hashes);
    SortBySizeFacts(init);
    InitialBucketsTotal(hashes);
    forall p | 0 <= p < |order| ensures Genuine(hashes, order[p]) {
      assert order[p] in multiset(init);
    }
    forall p, q | 0 <= p < q < |order| ensures order[p].index != order[q].index {
      assert Before(order[p], order[q]);
    }
    IndicesMembers(order);
    forall i | 0 <= i < |hashes| ensures BucketOf(hashes, i) in Indices(order) {
      var b := BucketOf(hashes, i);
      assert init[b] in multiset(order);
      var p :| 0 <= p < |order| && order[p] == init[b];
      assert order[p].index == b;
    }
  }
}
