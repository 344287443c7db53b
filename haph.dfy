/**
  The map itself (src/lib.rs): construction with its guards, the duplicate
  check, the in-place reordering of the entries into slot order, and lookup.
  The hasher is a function from a key and a seed to a hash triple; the seed
  stream is a finite sequence of seeds.
*/
module Haph {
  import opened Wrappers
  import opened Words
  import opened Buckets
  import opened Displacement
  import opened Generate

  /** `Map`: the seed, one displacement pair per bucket, and the entries in slot order. */
  datatype Map<S, K, V> = Map(seed: S, displacements: seq<Pair>, entries: seq<(K, V)>)

  /** The panics of `Map::new`, as failure values. */
  datatype BuildError =
    | TooManyEntries   // "cannot have more entries than possible hash values"
    | DuplicateKey     // "duplicate key present"
    | NoSeedWorks      // "failed to find perfect hash function"

  /** The shape every map built by `Map::new` has: one displacement pair per bucket. */
  predicate Valid<S, K, V>(m: Map<S, K, V>)
  {
    |m.displacements| == NumBuckets(|m.entries|)
  }

  /** Some item occurs twice. */
  ghost predicate Repeats<T>(items: seq<T>)
  {
    exists i, j :: 0 <= i < j < |items| && items[i] == items[j]
  }

  /** `entries.iter().map(|entry| &entry.0)`. */
  function Keys<K, V>(entries: seq<(K, V)>): (keys: seq<K>)
    ensures |keys| == |entries| && forall i :: 0 <= i < |entries| ==> keys[i] == entries[i].0
  {
    seq(|entries|, i requires 0 <= i < |entries| => entries[i].0)
  }

  /** `has_duplicates` (lines 73-83): inserts items into a set and reports the first one already there. */
  method HasDuplicates<T(==)>(items: seq<T>) returns (dup: bool)
    ensures dup <==> Repeats(items)
  {
    var seen: set<T> := {};
    for k := 0 to |items|
      invariant seen == set t | 0 <= t < k :: items[t]
      invariant forall i, j :: 0 <= i < j < k ==> items[i] != items[j]
    {
      if items[k] in seen {
        var t :| 0 <= t < k && items[t] == items[k];
        return true;
      }
      seen := seen + {items[k]};
    }
    return false;
  }

  /** The sequence whose slot `s` holds `data[indices[s]]`. */
  function Permute<T>(data: seq<T>, indices: seq<nat>): (r: seq<T>)
    requires forall s :: 0 <= s < |indices| ==> indices[s] < |data|
    ensures |r| == |indices|
  {
    seq(|indices|, s requires 0 <= s < |indices| => data[indices[s]])
  }

  /**
    The state between cycles of `sort_by_indices`: a slot marked done
    (`marks[s] == s`) holds `original[indices[s]]`; an unmarked slot still
    holds its original item and its original index, and the slot it points
    to is unmarked too.
  */
  ghost predicate Sorting<T>(data: seq<T>, marks: seq<nat>, indices: seq<nat>, original: seq<T>)
    requires |data| == |marks| == |original| && IsPermutation(indices, |data|)
  {
    && (forall i :: 0 <= i < |data| && marks[i] == i ==> data[i] == original[indices[i]])
    && (forall i :: 0 <= i < |data| && marks[i] != i ==> marks[i] == indices[i] && data[i] == original[i])
    && (forall i :: 0 <= i < |data| && marks[i] != i ==> marks[indices[i]] != indices[i])
    && multiset(data) == multiset(original)
  }

  /** Every slot below `k` is marked done. */
  ghost predicate DoneBelow(marks: seq<nat>, k: nat)
  {
    forall i :: 0 <= i < k && i < |marks| ==> marks[i] == i
  }

  /** The slots not yet marked done. */
  ghost function Unmarked(marks: seq<nat>): set<nat>
  {
    set i: nat | i < |marks| && marks[i] != i
  }

  /**
    The state inside the cycle that starts at `idx`: `current` is the unmarked
    slot now holding `original[idx]`, and the only unmarked slot pointing at a
    marked one points at `idx`.
  */
  ghost predicate Cycle<T>(data: seq<T>, marks: seq<nat>, indices: seq<nat>, original: seq<T>, idx: nat, current: nat)
    requires |data| == |marks| == |original| && IsPermutation(indices, |data|)
  {
    var n := |data|;
    && idx < n && current < n && marks[current] != current
    && data[current] == original[idx]
    && (current != idx ==> marks[idx] == idx)
    && (forall i :: 0 <= i < idx ==> marks[i] == i)
    && (forall i :: 0 <= i < n && i != current && marks[i] == i ==> data[i] == original[indices[i]])
    && (forall i :: 0 <= i < n && marks[i] != i ==> marks[i] == indices[i])
    && (forall i :: 0 <= i < n && i != current && marks[i] != i ==> data[i] == original[i])
    && (forall i :: 0 <= i < n && marks[i] != i && marks[indices[i]] == indices[i] ==> indices[i] == idx)
    && (current != idx ==> forall i :: 0 <= i < n && marks[i] != i ==> indices[i] != current)
    && multiset(data) == multiset(original)
  }

  lemma CycleStart<T>(data: seq<T>, marks: seq<nat>, indices: seq<nat>, original: seq<T>, idx: nat)
    requires |data| == |marks| == |original| && IsPermutation(indices, |data|)
    requires idx < |data| && marks[idx] != idx
    requires DoneBelow(marks, idx)
    requires Sorting(data, marks, indices, original)
    ensures Cycle(data, marks, indices, original, idx, idx)
  {
  }

  /** Marking `current` and swapping its item forward keeps the cycle state and shrinks the unmarked slots. */
  lemma CycleAdvance<T>(data: seq<T>, marks: seq<nat>, indices: seq<nat>, original: seq<T>, idx: nat, current: nat)
    requires |data| == |marks| == |original| && IsPermutation(indices, |data|)
    requires Cycle(data, marks, indices, original, idx, current)
    requires marks[marks[current]] != marks[current]
    ensures var target := marks[current];
      Cycle(data[current := data[target]][target := data[current]], marks[current := current], indices, original, idx, target)
    ensures |Unmarked(marks[current := current])| < |Unmarked(marks)|
  {
    assert Unmarked(marks[current := current]) == Unmarked(marks) - {current};
  }

  /** Distinct positions of a permutation hold distinct values. */
  lemma PermutationDistinct(p: seq<nat>, n: nat, i: nat, j: nat)
    requires IsPermutation(p, n) && i < n && j < n && i != j
    ensures p[i] != p[j]
  {
    if j < i {
      assert p[j] != p[i];
    }
  }

  /** Reaching a marked slot closes the cycle: every slot up to `idx` is done. */
  lemma CycleClose<T>(data: seq<T>, marks: seq<nat>, marked: seq<nat>, indices: seq<nat>, original: seq<T>, idx: nat, current: nat)
    requires |data| == |marks| == |original| && IsPermutation(indices, |data|)
    requires Cycle(data, marks, indices, original, idx, current)
    requires marks[marks[current]] == marks[current]
    requires marked == marks[current := current]
    ensures Sorting(data, marked, indices, original)
    ensures DoneBelow(marked, idx + 1)
  {
    var n := |data|;
    assert indices[current] == idx;
    forall i | 0 <= i < n && marked[i] != i
      ensures marked[indices[i]] != indices[i]
    {
      PermutationDistinct(indices, n, i, current);
    }
  }

  /**
    The inner loop of `sort_by_indices` (lines 90-99): walks the cycle that
    starts at `idx`, swapping each item into place and marking its slot,
    until it reaches a slot already marked.
  */
  method FollowCycle<T>(data: array<T>, marks: array<nat>, indices: seq<nat>, idx: nat, ghost original: seq<T>)
    requires data as object != marks as object
    requires data.Length == marks.Length == |original| && IsPermutation(indices, data.Length)
    requires idx < data.Length && marks[idx] != idx
    requires DoneBelow(marks[..], idx)
    requires Sorting(data[..], marks[..], indices, original)
    modifies data, marks
    ensures DoneBelow(marks[..], idx + 1)
    ensures Sorting(data[..], marks[..], indices, original)
  {
    var current: nat := idx;
    CycleStart(data[..], marks[..], indices, original, idx);
    while true
      invariant Cycle(data[..], marks[..], indices, original, idx, current)
      decreases |Unmarked(marks[..])|
    {
      var target := marks[current];
      ghost var d, m := data[..], marks[..];
      marks[current] := current;
      assert marks[..] == m[current := current];
      if marks[target] == target {
        CycleClose(d, m, marks[..], indices, original, idx, current);
        break;
      }
      data[current], data[target] := data[target], data[current];
      assert data[..] == d[current := d[target]][target := d[current]];
      CycleAdvance(d, m, indices, original, idx, current);
      current := target;
    }
  }

  /** Before the first cycle every slot still points where `indices` says. */
  lemma SortingStart<T>(data: seq<T>, indices: seq<nat>)
    requires IsPermutation(indices, |data|)
    ensures Sorting(data, indices, indices, data)
  {
    forall i | 0 <= i < |data| && indices[i] != i
      ensures indices[indices[i]] != indices[i]
    {
      PermutationDistinct(indices, |data|, i, indices[i]);
    }
  }

  /** Once every slot is done, the data is the permuted original. */
  lemma SortingDone<T>(data: seq<T>, marks: seq<nat>, indices: seq<nat>, original: seq<T>)
    requires |data| == |marks| == |original| && IsPermutation(indices, |data|)
    requires Sorting(data, marks, indices, original)
    requires DoneBelow(marks, |marks|)
    ensures data == Permute(original, indices)
  {
  }

  /**
    `sort_by_indices` (lines 86-101): moves `data[indices[s]]` to slot `s` for
    every `s` by following the cycles of the permutation, swapping in place.
    The consumed `indices` vector becomes the local array `marks`, and a
    slot counts as done once `marks[s] == s`.
  */
  method SortByIndices<T>(data: array<T>, indices: seq<nat>)
    requires IsPermutation(indices, data.Length)
    modifies data
    ensures data[..] == Permute(old(data[..]), indices)
    ensures multiset(data[..]) == multiset(old(data[..]))
    ensures (forall s :: 0 <= s < |indices| ==> indices[s] == s) ==> data[..] == old(data[..])
  {
    var n := data.Length;
    ghost var original := data[..];
    var marks := new nat[n](i requires 0 <= i < n => indices[i]);
    assert marks[..] == indices;
    SortingStart(original, indices);
    for idx := 0 to n
      invariant DoneBelow(marks[..], idx)
      invariant Sorting(data[..], marks[..], indices, original)
    {
      if marks[idx] != idx {
        FollowCycle(data, marks, indices, idx, original);
      }
    }
    SortingDone(data[..], marks[..], indices, original);
  }

  /**
    `get_entry` (lines 104-126): bucket from `h0`, displacement pair, slot,
    then a key comparison.  It never finds a key that is not stored, and it
    finds nothing in a map without buckets.
  */
  function GetEntry<S, K(==), V>(m: Map<S, K, V>, hasher: (K, S) -> Triple, key: K): (r: Option<(K, V)>)
    requires Valid(m)
    ensures |m.displacements| == 0 ==> r == None
    ensures r.Some? ==> r.value.0 == key && r.value in m.entries
  {
    if |m.displacements| == 0 then None
    else
      var h := hasher(key, m.seed);
      var d := m.displacements[h.h0 % |m.displacements|];
      var index := Displace(h.h1, h.h2, d.0, d.1) % |m.entries|;
      var entry := m.entries[index];
      if entry.0 == key then Some(entry) else None
  }

  /** The map `Map::new` assembles under one seed, when the attempt under that seed succeeds. */
  function Assemble<S, K, V>(entries: seq<(K, V)>, seed: S, hasher: (K, S) -> Triple): Option<Map<S, K, V>>
  {
    var hashes := HashAll(Keys(entries), seed, hasher);
    match Placement(hashes)
    case None => None
    case Some(st) =>
      PlacementCorrect(hashes);
      Some(Map(seed, st.displacements, Permute(entries, st.indices)))
  }

  /**
    End to end: in an assembled map every input entry is found under its key,
    and a key that was not in the input is never found.
  */
  lemma AssembledMapFindsEntries<S, K, V>(entries: seq<(K, V)>, seed: S, hasher: (K, S) -> Triple)
    ensures Assemble(entries, seed, hasher).Some? ==>
      var m := Assemble(entries, seed, hasher).value;
      && Valid(m)
      && (forall i :: 0 <= i < |entries| ==> GetEntry(m, hasher, entries[i].0) == Some(entries[i]))
      && (forall key :: key !in Keys(entries) ==> GetEntry(m, hasher, key) == None)
  {
    var hashes := HashAll(Keys(entries), seed, hasher);
    PlacementCorrect(hashes);
    if Assemble(entries, seed, hasher).Some? {
      var m := Assemble(entries, seed, hasher).value;
      var st := Placement(hashes).value;
      forall i | 0 <= i < |entries| ensures GetEntry(m, hasher, entries[i].0) == Some(entries[i]) {
        assert hasher(entries[i].0, seed) == hashes[i];
        assert m.entries[EntrySlot(hashes, st.displacements, i)] == entries[i];
      }
    }
  }

  /**
    `Map::new` (lines 40-69): fails with too many entries or a repeated key
    before any search; otherwise takes the first seed whose attempt succeeds,
    reorders the entries into slot order, and yields a map that finds exactly
    the input entries.
  */
  method New<S, K(==), V>(entries: seq<(K, V)>, seeds: seq<S>, hasher: (K, S) -> Triple)
    returns (r: Result<Map<S, K, V>, BuildError>)
    ensures r == Failure(TooManyEntries) <==> |entries| > HashMax
    ensures r == Failure(DuplicateKey) <==> |entries| <= HashMax && Repeats(Keys(entries))
    ensures r == Failure(NoSeedWorks) <==>
      && |entries| <= HashMax && !Repeats(Keys(entries))
      && forall k :: 0 <= k < |seeds| ==> Assemble(entries, seeds[k], hasher).None?
    ensures r.Success? ==>
      exists k :: 0 <= k < |seeds| && Assemble(entries, seeds[k], hasher) == Some(r.value)
        && forall j :: 0 <= j < k ==> Assemble(entries, seeds[j], hasher).None?
    ensures r.Success? ==>
      && Valid(r.value)
      && multiset(r.value.entries) == multiset(entries)
      && (forall i :: 0 <= i < |entries| ==> GetEntry(r.value, hasher, entries[i].0) == Some(entries[i]))
      && (forall key :: key !in Keys(entries) ==> GetEntry(r.value, hasher, key) == None)
  {
    if |entries| > HashMax {
      return Failure(TooManyEntries);
    }
    var keys := Keys(entries);
    var dup := HasDuplicates(keys);
    if dup {
      return Failure(DuplicateKey);
    }
    var generated := Generate.Generate(keys, seeds, hasher);
    if generated.None? {
      return Failure(NoSeedWorks);
    }
    var (seed, state) := generated.value;
    PlacementCorrect(HashAll(keys, seed, hasher));
    var data := new (K, V)[|entries|](i requires 0 <= i < |entries| => entries[i]);
    assert data[..] == entries;
    SortByIndices(data, state.indices);
    r := Success(Map(seed, state.displacements, data[..]));
    AssembledMapFindsEntries(entries, seed, hasher);
  }
}
