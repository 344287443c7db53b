/**
  The construction search as the source runs it (src/generate.rs): buckets
  are built by pushing entry positions, the displacement search updates the
  `displacements`, `map` and `try_map` arrays and the `generation` counter in
  place, and `generate` tries seeds until one works.  Each method is proved
  to compute the value-level specification of module Displacement.
*/
module Generate {
  import opened Wrappers
  import opened Words
  import opened Buckets
  import opened Displacement

  /** Lines 66-70: one bucket per index, then each entry pushed onto the bucket its `h0` selects. */
  method BuildBuckets(hashes: seq<Triple>) returns (buckets: seq<Bucket>)
    ensures buckets == InitialBuckets(hashes)
  {
    var nb := NumBuckets(|hashes|);
    buckets := seq(nb, b requires 0 <= b => Bucket(b, []));
    for i := 0 to |hashes|
      invariant |buckets| == nb
      invariant forall b :: 0 <= b < nb ==> buckets[b] == Bucket(b, KeysIn(hashes, b, i))
    {
      var h := hashes[i].h0 % nb;
      buckets := buckets[h := buckets[h].(keys := buckets[h].keys + [i])];
    }
  }

  /**
    Lines 86-96: one trial of the pair `d` for a bucket, under a fresh
    `generation`.  A member's slot is rejected when `map` holds an entry
    there or when the slot already carries this trial's stamp; otherwise it
    is stamped and recorded in `values`.  `map` is only read.
  */
  method Trial(hashes: seq<Triple>, keys: seq<nat>, d: Pair, slots: array<Option<nat>>, tryMap: array<nat>, generation: nat)
    returns (ok: bool, values: seq<(nat, nat)>)
    requires slots.Length == tryMap.Length == |hashes| && KeysInRange(hashes, keys)
    requires forall s :: 0 <= s < tryMap.Length ==> tryMap[s] < generation
    modifies tryMap
    ensures forall s :: 0 <= s < tryMap.Length ==> tryMap[s] <= generation
    ensures ok == Fits(hashes, keys, slots[..], d)
    ensures ok ==> |values| == |keys| && forall j :: 0 <= j < |keys| ==> values[j] == (Slot(hashes, keys[j], d), keys[j])
    ensures forall s :: 0 <= s < tryMap.Length ==> (tryMap[s] == generation <==> exists t :: 0 <= t < |values| && values[t].0 == s)
  {
    values := [];
    for j := 0 to |keys|
      invariant |values| == j
      invariant forall t :: 0 <= t < j ==> values[t] == (Slot(hashes, keys[t], d), keys[t])
      invariant forall t :: 0 <= t < j ==> slots[Slot(hashes, keys[t], d)].None?
      invariant forall t, u :: 0 <= t < u < j ==> Slot(hashes, keys[t], d) != Slot(hashes, keys[u], d)
      invariant forall s :: 0 <= s < tryMap.Length ==> tryMap[s] <= generation
      invariant forall s :: 0 <= s < tryMap.Length ==> (tryMap[s] == generation <==> exists t :: 0 <= t < j && values[t].0 == s)
    {
      var index := Slot(hashes, keys[j], d);
      if slots[index].Some? || tryMap[index] == generation {
        if slots[index].None? {
          var t :| 0 <= t < j && values[t].0 == index;
          assert Slot(hashes, keys[t], d) == Slot(hashes, keys[j], d);
        }
        return false, values;
      }
      tryMap[index] := generation;
      values := values + [(index, keys[j])];
    }
    ok := true;
  }

  /**
    Lines 81-103, for one value of `d1`: tries `d2` over `[0, n)`, bumping
    `generation` before each trial, and stops at the first `d2` that works.
  */
  method SearchRow(hashes: seq<Triple>, keys: seq<nat>, slots: array<Option<nat>>, tryMap: array<nat>, generation: nat, d1: nat)
    returns (found: bool, d2: nat, values: seq<(nat, nat)>, generation': nat)
    requires slots.Length == tryMap.Length == |hashes| && KeysInRange(hashes, keys)
    requires forall s :: 0 <= s < tryMap.Length ==> tryMap[s] <= generation
    requires d1 < |hashes|
    modifies tryMap
    ensures found ==> generation' == generation + d2 + 1
    ensures !found ==> generation' == generation + |hashes|
    ensures forall s :: 0 <= s < tryMap.Length ==> tryMap[s] <= generation'
    ensures found ==> FirstFitFrom(hashes, keys, slots[..], d1, 0) == Some((d1, d2))
    ensures !found ==> FirstFitFrom(hashes, keys, slots[..], d1, 0) == FirstFitFrom(hashes, keys, slots[..], d1 + 1, 0)
    ensures found ==> |values| == |keys| && forall j :: 0 <= j < |keys| ==> values[j] == (Slot(hashes, keys[j], Cast(d1, d2)), keys[j])
  {
    var n := |hashes|;
    ghost var occ := slots[..];
    generation' := generation;
    d2, values := 0, [];
    while d2 < n
      invariant d2 <= n
      invariant generation' == generation + d2
      invariant forall s :: 0 <= s < tryMap.Length ==> tryMap[s] <= generation'
      invariant FirstFitFrom(hashes, keys, occ, d1, 0) == FirstFitFrom(hashes, keys, occ, d1, d2)
    {
      generation' := generation' + 1;
      var ok;
      ok, values := Trial(hashes, keys, Cast(d1, d2), slots, tryMap, generation');
      if ok {
        return true, d2, values, generation';
      }
      d2 := d2 + 1;
    }
    found := false;
  }

  /**
    Lines 80-104: tries `(d1, d2)` over `[0, n)²`, `d1` outer and `d2` inner,
    and stops at the first pair that works.
  */
  method FindDisplacement(hashes: seq<Triple>, keys: seq<nat>, slots: array<Option<nat>>, tryMap: array<nat>, generation: nat)
    returns (found: bool, d1: nat, d2: nat, values: seq<(nat, nat)>, generation': nat)
    requires slots.Length == tryMap.Length == |hashes| && KeysInRange(hashes, keys)
    requires forall s :: 0 <= s < tryMap.Length ==> tryMap[s] <= generation
    modifies tryMap
    ensures generation' >= generation
    ensures forall s :: 0 <= s < tryMap.Length ==> tryMap[s] <= generation'
    ensures found == FirstFit(hashes, keys, slots[..]).Some?
    ensures found ==> (d1, d2) == FirstFit(hashes, keys, slots[..]).value
    ensures found ==> |values| == |keys| && forall j :: 0 <= j < |keys| ==> values[j] == (Slot(hashes, keys[j], Cast(d1, d2)), keys[j])
  {
    var n := |hashes|;
    ghost var occ := slots[..];
    generation' := generation;
    d1, d2, values := 0, 0, [];
    while d1 < n
      invariant d1 <= n
      invariant generation' >= generation
      invariant forall s :: 0 <= s < tryMap.Length ==> tryMap[s] <= generation'
      invariant FirstFit(hashes, keys, occ) == FirstFitFrom(hashes, keys, occ, d1, 0)
    {
      found, d2, values, generation' := SearchRow(hashes, keys, slots, tryMap, generation', d1);
      if found {
        return;
      }
      d1 := d1 + 1;
    }
    found := false;
  }

  /** Lines 99-101: `map[index] = Some(key)` for each recorded `(index, key)`. */
  method Commit(hashes: seq<Triple>, keys: seq<nat>, d: Pair, values: seq<(nat, nat)>, slots: array<Option<nat>>)
    requires slots.Length == |hashes| && KeysInRange(hashes, keys)
    requires |values| == |keys| && forall j :: 0 <= j < |keys| ==> values[j] == (Slot(hashes, keys[j], d), keys[j])
    modifies slots
    ensures slots[..] == Place(hashes, old(slots[..]), keys, d)
  {
    for j := 0 to |values|
      invariant slots[..] == Place(hashes, old(slots[..]), keys[..j], d)
    {
      assert keys[..j + 1][..j] == keys[..j];
      slots[values[j].0] := Some(values[j].1);
    }
    assert keys[..|values|] == keys;
  }

  /**
    One pass of the `'buckets` loop (lines 79-106): search the first working
    pair for `bucket`; when there is one, record it as the bucket's
    displacement and commit the members to `map`.
  */
  method ResolveBucket(hashes: seq<Triple>, bucket: Bucket, slots: array<Option<nat>>, displacements: array<Pair>,
                       tryMap: array<nat>, generation: nat)
    returns (found: bool, generation': nat)
    requires slots.Length == tryMap.Length == |hashes| && KeysInRange(hashes, bucket.keys)
    requires bucket.index < displacements.Length
    requires forall s :: 0 <= s < tryMap.Length ==> tryMap[s] <= generation
    modifies slots, displacements, tryMap
    ensures forall s :: 0 <= s < tryMap.Length ==> tryMap[s] <= generation'
    ensures found == FirstFit(hashes, bucket.keys, old(slots[..])).Some?
    ensures found ==>
      var d := Cast(FirstFit(hashes, bucket.keys, old(slots[..])).value.0, FirstFit(hashes, bucket.keys, old(slots[..])).value.1);
      && slots[..] == Place(hashes, old(slots[..]), bucket.keys, d)
      && displacements[..] == old(displacements[..])[bucket.index := d]
  {
    var d1, d2, values;
    found, d1, d2, values, generation' := FindDisplacement(hashes, bucket.keys, slots, tryMap, generation);
    if found {
      var d := Cast(d1, d2);
      displacements[bucket.index] := d;
      Commit(hashes, bucket.keys, d, values, slots);
    }
  }

  /**
    `try_generate` (lines 58-112).  Buckets are resolved largest first; after
    a working pair is found, its displacement is recorded and its members are
    committed to `map`; a bucket without one ends the attempt with `None`.
    The result is exactly the value-level `Placement(hashes)`.
  */
  method TryGenerate(hashes: seq<Triple>) returns (r: Option<MapState>)
    ensures r == Placement(hashes)
  {
    var n := |hashes|;
    var nb := NumBuckets(n);
    var buckets := BuildBuckets(hashes);
    buckets := SortBySize(buckets);
    ResolutionOrderFacts(hashes);
    assert buckets == ResolutionOrder(hashes);

    var displacements := new Pair[nb](_ => (0, 0));
    var slots := new Option<nat>[n](_ => None);
    var tryMap := new nat[n](_ => 0);
    var generation := 0;
    assert displacements[..] == ZeroPairs(nb) && slots[..] == Vacant(n) && buckets[0..] == buckets;

    for k := 0 to |buckets|
      invariant InTable(hashes, buckets[k..], nb)
      invariant Resolved(hashes) == Resolve(hashes, buckets[k..], slots[..], displacements[..])
      invariant forall s :: 0 <= s < n ==> tryMap[s] <= generation
    {
      var bucket := buckets[k];
      ghost var occ, disps := slots[..], displacements[..];
      assert buckets[k..][0] == bucket && buckets[k..][1..] == buckets[k + 1..];
      var found;
      found, generation := ResolveBucket(hashes, bucket, slots, displacements, tryMap, generation);
      if !found {
        return None;
      }
    }

    ResolvedFills(hashes);
    r := Some(MapState(displacements[..], Unwrap(slots[..])));
  }

  /** Lines 48-51: the hash triples of all keys under one seed. */
  function HashAll<K, S>(keys: seq<K>, seed: S, hasher: (K, S) -> Triple): (hashes: seq<Triple>)
    ensures |hashes| == |keys| && forall i :: 0 <= i < |keys| ==> hashes[i] == hasher(keys[i], seed)
  {
    seq(|keys|, i requires 0 <= i < |keys| => hasher(keys[i], seed))
  }

  /**
    `generate` (lines 36-55): the first seed of the stream for which the
    attempt succeeds, with that attempt's state; `None` when the stream is
    exhausted (the source's `expect` failure).
  */
  method Generate<K, S>(keys: seq<K>, seeds: seq<S>, hasher: (K, S) -> Triple) returns (r: Option<(S, MapState)>)
    ensures r.None? <==> forall k :: 0 <= k < |seeds| ==> Placement(HashAll(keys, seeds[k], hasher)).None?
    ensures r.Some? ==>
      exists k :: 0 <= k < |seeds| && r.value.0 == seeds[k]
        && Placement(HashAll(keys, seeds[k], hasher)) == Some(r.value.1)
        && forall j :: 0 <= j < k ==> Placement(HashAll(keys, seeds[j], hasher)).None?
  {
    for k := 0 to |seeds|
      invariant forall j :: 0 <= j < k ==> Placement(HashAll(keys, seeds[j], hasher)).None?
    {
      var hashes := HashAll(keys, seeds[k], hasher);
      var state := TryGenerate(hashes);
      if state.Some? {
        return Some((seeds[k], state.value));
      }
    }
    r := None;
  }
}
