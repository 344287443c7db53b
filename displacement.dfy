/**
  The displacement search of `try_generate` (src/generate.rs, lines 73-111)
  stated as functions over values, and the facts proved about it: every entry
  ends up in its own slot, and the slot table is a permutation of the entries.
*/
module Displacement {
  import opened Wrappers
  import opened Words
  import opened Buckets

  /** A displacement pair `(d1, d2)`. */
  type Pair = (Word, Word)

  /** `MapState`: the displacement table and, per slot, the entry stored there. */
  datatype MapState = MapState(displacements: seq<Pair>, indices: seq<nat>)

  /** `(d1.as_(), d2.as_())`: the trial counters as hash words. */
  function Cast(d1: nat, d2: nat): Pair
  {
    (AsWord(d1), AsWord(d2))
  }

  /** The slot entry `key` lands on under displacement `d`: `displace(h1, h2, d1, d2) % table_len`. */
  function Slot(hashes: seq<Triple>, key: nat, d: Pair): (s: nat)
    requires key < |hashes|
    ensures s < |hashes|
  {
    Displace(hashes[key].h1, hashes[key].h2, d.0, d.1) % |hashes|
  }

  /** The slot of entry `i` under the displacement of its own bucket. */
  function EntrySlot(hashes: seq<Triple>, disps: seq<Pair>, i: nat): (s: nat)
    requires i < |hashes| && |disps| == NumBuckets(|hashes|)
    ensures s < |hashes|
  {
    Slot(hashes, i, disps[BucketOf(hashes, i)])
  }

  // ---------------------------------------------------------------------
  // One trial

  /**
    The pair `d` works for a bucket: every member lands on a slot that no
    earlier bucket occupies, and no two members land on the same slot.
  */
  predicate Fits(hashes: seq<Triple>, keys: seq<nat>, occ: seq<Option<nat>>, d: Pair)
    requires |occ| == |hashes| && KeysInRange(hashes, keys)
  {
    && (forall j :: 0 <= j < |keys| ==> occ[Slot(hashes, keys[j], d)].None?)
    && (forall j, l :: 0 <= j < l < |keys| ==> Slot(hashes, keys[j], d) != Slot(hashes, keys[l], d))
  }

  /** Row-major order on trial counters: `d1` outer, `d2` inner. */
  predicate PairBefore(a: (nat, nat), b: (nat, nat))
  {
    a.0 < b.0 || (a.0 == b.0 && a.1 < b.1)
  }

  /** The first working pair at or after `(d1, d2)` in row-major order over `[0, n)²`. */
  function FirstFitFrom(hashes: seq<Triple>, keys: seq<nat>, occ: seq<Option<nat>>, d1: nat, d2: nat): Option<(nat, nat)>
    requires |occ| == |hashes| && KeysInRange(hashes, keys)
    requires d2 <= |hashes|
    decreases |hashes| - d1, |hashes| - d2
  {
    if d1 >= |hashes| then None
    else if d2 == |hashes| then FirstFitFrom(hashes, keys, occ, d1 + 1, 0)
    else if Fits(hashes, keys, occ, Cast(d1, d2)) then Some((d1, d2))
    else FirstFitFrom(hashes, keys, occ, d1, d2 + 1)
  }

  /** The pair the search settles on for one bucket, if any. */
  function FirstFit(hashes: seq<Triple>, keys: seq<nat>, occ: seq<Option<nat>>): Option<(nat, nat)>
    requires |occ| == |hashes| && KeysInRange(hashes, keys)
  {
    FirstFitFrom(hashes, keys, occ, 0, 0)
  }

  /** No pair in `[0, n)²` from `(d1, d2)` on works for the bucket. */
  ghost predicate NoneFitFrom(hashes: seq<Triple>, keys: seq<nat>, occ: seq<Option<nat>>, d1: nat, d2: nat)
    requires |occ| == |hashes| && KeysInRange(hashes, keys)
  {
    forall a: nat, b: nat :: a < |hashes| && b < |hashes| && !PairBefore((a, b), (d1, d2)) && PairBefore((a, b), (|hashes|, 0)) ==>
      !Fits(hashes, keys, occ, Cast(a, b))
  }

  /** No pair from `(d1, d2)` up to, but excluding, `(e1, e2)` works for the bucket. */
  ghost predicate NoneFitBetween(hashes: seq<Triple>, keys: seq<nat>, occ: seq<Option<nat>>, d1: nat, d2: nat, e1: nat, e2: nat)
    requires |occ| == |hashes| && KeysInRange(hashes, keys)
  {
    forall a: nat, b: nat :: b < |hashes| && !PairBefore((a, b), (d1, d2)) && PairBefore((a, b), (e1, e2)) ==>
      !Fits(hashes, keys, occ, Cast(a, b))
  }

  /** A failing pair `(d1, d2)` extends a failing stretch that starts just after it. */
  lemma BetweenExtend(hashes: seq<Triple>, keys: seq<nat>, occ: seq<Option<nat>>, d1: nat, d2: nat, e1: nat, e2: nat)
    requires |occ| == |hashes| && KeysInRange(hashes, keys)
    requires d2 < |hashes| && !Fits(hashes, keys, occ, Cast(d1, d2))
    requires NoneFitBetween(hashes, keys, occ, d1, d2 + 1, e1, e2)
    ensures NoneFitBetween(hashes, keys, occ, d1, d2, e1, e2)
  {
    forall a: nat, b: nat | b < |hashes| && !PairBefore((a, b), (d1, d2)) && PairBefore((a, b), (e1, e2))
      ensures !Fits(hashes, keys, occ, Cast(a, b))
    {
      if a != d1 || b != d2 {
        assert !PairBefore((a, b), (d1, d2 + 1));
      }
    }
  }

  /** A failing pair `(d1, d2)` extends a failing tail that starts just after it. */
  lemma FromExtend(hashes: seq<Triple>, keys: seq<nat>, occ: seq<Option<nat>>, d1: nat, d2: nat)
    requires |occ| == |hashes| && KeysInRange(hashes, keys)
    requires d2 < |hashes| && !Fits(hashes, keys, occ, Cast(d1, d2))
    requires NoneFitFrom(hashes, keys, occ, d1, d2 + 1)
    ensures NoneFitFrom(hashes, keys, occ, d1, d2)
  {
    forall a: nat, b: nat | a < |hashes| && b < |hashes| && !PairBefore((a, b), (d1, d2)) && PairBefore((a, b), (|hashes|, 0))
      ensures !Fits(hashes, keys, occ, Cast(a, b))
    {
      if a != d1 || b != d2 {
        assert !PairBefore((a, b), (d1, d2 + 1));
      }
    }
  }

  lemma {:induction false} FirstFitFromSome(hashes: seq<Triple>, keys: seq<nat>, occ: seq<Option<nat>>, d1: nat, d2: nat)
    requires |occ| == |hashes| && KeysInRange(hashes, keys)
    requires d2 <= |hashes|
    requires FirstFitFrom(hashes, keys, occ, d1, d2).Some?
    ensures var r := FirstFitFrom(hashes, keys, occ, d1, d2).value;
      && r.0 < |hashes| && r.1 < |hashes|
      && Fits(hashes, keys, occ, Cast(r.0, r.1))
      && NoneFitBetween(hashes, keys, occ, d1, d2, r.0, r.1)
    decreases |hashes| - d1, |hashes| - d2
  {
    if d2 == |hashes| {
      FirstFitFromSome(hashes, keys, occ, d1 + 1, 0);
    } else if !Fits(hashes, keys, occ, Cast(d1, d2)) {
      FirstFitFromSome(hashes, keys, occ, d1, d2 + 1);
      var r := FirstFitFrom(hashes, keys, occ, d1, d2).value;
      BetweenExtend(hashes, keys, occ, d1, d2, r.0, r.1);
    }
  }

  lemma {:induction false} FirstFitFromNone(hashes: seq<Triple>, keys: seq<nat>, occ: seq<Option<nat>>, d1: nat, d2: nat)
    requires |occ| == |hashes| && KeysInRange(hashes, keys)
    requires d2 <= |hashes|
    requires FirstFitFrom(hashes, keys, occ, d1, d2).None?
    ensures NoneFitFrom(hashes, keys, occ, d1, d2)
    decreases |hashes| - d1, |hashes| - d2
  {
    if d1 >= |hashes| {
    } else if d2 == |hashes| {
      FirstFitFromNone(hashes, keys, occ, d1 + 1, 0);
    } else {
      FirstFitFromNone(hashes, keys, occ, d1, d2 + 1);
      FromExtend(hashes, keys, occ, d1, d2);
    }
  }

  /**
    The search returns the first working pair in row-major order, with both
    counters below `n`, and finds none exactly when no pair in `[0, n)²` works.
  */
  lemma FirstFitIsFirst(hashes: seq<Triple>, keys: seq<nat>, occ: seq<Option<nat>>)
    requires |occ| == |hashes| && KeysInRange(hashes, keys)
    ensures var r := FirstFit(hashes, keys, occ);
      && (r.Some? ==>
            && r.value.0 < |hashes| && r.value.1 < |hashes|
            && Fits(hashes, keys, occ, Cast(r.value.0, r.value.1))
            && forall a: nat, b: nat :: b < |hashes| && PairBefore((a, b), r.value) ==> !Fits(hashes, keys, occ, Cast(a, b)))
      && (r.None? <==> forall a: nat, b: nat :: a < |hashes| && b < |hashes| ==> !Fits(hashes, keys, occ, Cast(a, b)))
  {
    var r := FirstFit(hashes, keys, occ);
    if r.Some? {
      FirstFitFromSome(hashes, keys, occ, 0, 0);
    } else {
      FirstFitFromNone(hashes, keys, occ, 0, 0);
    }
  }

  // ---------------------------------------------------------------------
  // Committing a bucket

  /** `map[index] = Some(key)` for each member, in member order. */
  function Place(hashes: seq<Triple>, occ: seq<Option<nat>>, keys: seq<nat>, d: Pair): (r: seq<Option<nat>>)
    requires |occ| == |hashes| && KeysInRange(hashes, keys)
    ensures |r| == |occ|
    decreases |keys|
  {
    if keys == [] then occ
    else
      var last := keys[|keys| - 1];
      Place(hashes, occ, keys[..|keys| - 1], d)[Slot(hashes, last, d) := Some(last)]
  }

  /** Slots that no member lands on keep their contents. */
  lemma {:induction false} PlaceOutside(hashes: seq<Triple>, occ: seq<Option<nat>>, keys: seq<nat>, d: Pair, s: nat)
    requires |occ| == |hashes| && KeysInRange(hashes, keys) && s < |occ|
    requires forall j :: 0 <= j < |keys| ==> Slot(hashes, keys[j], d) != s
    ensures Place(hashes, occ, keys, d)[s] == occ[s]
    decreases |keys|
  {
    if keys != [] {
      PlaceOutside(hashes, occ, keys[..|keys| - 1], d, s);
    }
  }

  /** When members land on distinct slots, each member is found on its own slot. */
  lemma {:induction false} PlaceInside(hashes: seq<Triple>, occ: seq<Option<nat>>, keys: seq<nat>, d: Pair)
    requires |occ| == |hashes| && KeysInRange(hashes, keys)
    requires forall j, l :: 0 <= j < l < |keys| ==> Slot(hashes, keys[j], d) != Slot(hashes, keys[l], d)
    ensures forall j :: 0 <= j < |keys| ==> Place(hashes, occ, keys, d)[Slot(hashes, keys[j], d)] == Some(keys[j])
    decreases |keys|
  {
    if keys != [] {
      var init := keys[..|keys| - 1];
      PlaceInside(hashes, occ, init, d);
      forall j | 0 <= j < |keys| ensures Place(hashes, occ, keys, d)[Slot(hashes, keys[j], d)] == Some(keys[j]) {
        if j < |keys| - 1 {
          assert keys[j] == init[j];
        }
      }
    }
  }

  /** The number of occupied slots. */
  function Count(occ: seq<Option<nat>>): (c: nat)
    ensures c <= |occ|
  {
    if occ == [] then 0 else (if occ[0].Some? then 1 else 0) + Count(occ[1..])
  }

  lemma {:induction false} CountFill(occ: seq<Option<nat>>, p: nat, x: nat)
    requires p < |occ| && occ[p].None?
    ensures Count(occ[p := Some(x)]) == Count(occ) + 1
  {
    if p > 0 {
      assert occ[p := Some(x)][1..] == occ[1..][p - 1 := Some(x)];
      CountFill(occ[1..], p - 1, x);
    }
  }

  lemma {:induction false} CountFull(occ: seq<Option<nat>>)
    requires Count(occ) == |occ|
    ensures forall s :: 0 <= s < |occ| ==> occ[s].Some?
  {
    if occ != [] {
      CountFull(occ[1..]);
      forall s | 0 < s < |occ| ensures occ[s].Some? {
        assert occ[s] == occ[1..][s - 1];
      }
    }
  }

  lemma {:induction false} CountEmpty(occ: seq<Option<nat>>)
    requires forall s :: 0 <= s < |occ| ==> occ[s].None?
    ensures Count(occ) == 0
  {
    if occ != [] {
      CountEmpty(occ[1..]);
    }
  }

  /** Committing a working pair occupies exactly one more slot per member. */
  lemma {:induction false} PlaceCount(hashes: seq<Triple>, occ: seq<Option<nat>>, keys: seq<nat>, d: Pair)
    requires |occ| == |hashes| && KeysInRange(hashes, keys)
    requires Fits(hashes, keys, occ, d)
    ensures Count(Place(hashes, occ, keys, d)) == Count(occ) + |keys|
    decreases |keys|
  {
    if keys != [] {
      var init := keys[..|keys| - 1];
      var last := keys[|keys| - 1];
      assert Fits(hashes, init, occ, d) by {
        forall j, l | 0 <= j < l < |init| ensures Slot(hashes, init[j], d) != Slot(hashes, init[l], d) {
          assert init[j] == keys[j] && init[l] == keys[l];
        }
      }
      PlaceCount(hashes, occ, init, d);
      forall j | 0 <= j < |init| ensures Slot(hashes, init[j], d) != Slot(hashes, last, d) {
        assert init[j] == keys[j];
      }
      PlaceOutside(hashes, occ, init, d, Slot(hashes, last, d));
      CountFill(Place(hashes, occ, init, d), Slot(hashes, last, d), last);
    }
  }

  // ---------------------------------------------------------------------
  // Resolving the buckets in order

  /** Every bucket index fits the table and every member names an entry. */
  predicate InTable(hashes: seq<Triple>, order: seq<Bucket>, nb: nat)
  {
    forall p :: 0 <= p < |order| ==> order[p].index < nb && KeysInRange(hashes, order[p].keys)
  }

  /**
    Resolves the buckets of `order` one after another from the occupancy `occ`
    and the table `disps`: the first working pair of each bucket is recorded
    and its members are committed; a bucket without a working pair abandons
    the attempt.
  */
  function Resolve(hashes: seq<Triple>, order: seq<Bucket>, occ: seq<Option<nat>>, disps: seq<Pair>)
    : (r: Option<(seq<Pair>, seq<Option<nat>>)>)
    requires |occ| == |hashes| && InTable(hashes, order, |disps|)
    ensures r.Some? ==> |r.value.0| == |disps| && |r.value.1| == |occ|
    decreases |order|
  {
    if order == [] then Some((disps, occ))
    else
      var b := order[0];
      match FirstFit(hashes, b.keys, occ)
      case None => None
      case Some(d) =>
        Resolve(hashes, order[1..], Place(hashes, occ, b.keys, Cast(d.0, d.1)), disps[b.index := Cast(d.0, d.1)])
  }

  /** `vec![None; table_len]`. */
  function Vacant(n: nat): (occ: seq<Option<nat>>)
    ensures |occ| == n && forall s :: 0 <= s < n ==> occ[s].None?
  {
    seq(n, _ => None)
  }

  /** `vec![(H::zero(), H::zero()); num_buckets]`. */
  function ZeroPairs(nb: nat): (disps: seq<Pair>)
    ensures |disps| == nb && forall b :: 0 <= b < nb ==> disps[b] == (0, 0)
  {
    seq(nb, _ => (0, 0))
  }

  /** The whole resolution, from an empty table, in `ResolutionOrder`. */
  function Resolved(hashes: seq<Triple>): Option<(seq<Pair>, seq<Option<nat>>)>
  {
    ResolutionOrderFacts(hashes);
    Resolve(hashes, ResolutionOrder(hashes), Vacant(|hashes|), ZeroPairs(NumBuckets(|hashes|)))
  }

  /** `map.into_iter().map(Option::unwrap).collect()`, on a table with no empty slot. */
  function Unwrap(occ: seq<Option<nat>>): (r: seq<nat>)
    requires forall s :: 0 <= s < |occ| ==> occ[s].Some?
    ensures |r| == |occ| && forall s :: 0 <= s < |occ| ==> occ[s] == Some(r[s])
  {
    seq(|occ|, s requires 0 <= s < |occ| => occ[s].value)
  }

  /** The result of `try_generate(hashes)`. */
  function Placement(hashes: seq<Triple>): Option<MapState>
  {
    match Resolved(hashes)
    case None => None
    case Some(res) =>
      ResolvedFills(hashes);
      Some(MapState(res.0, Unwrap(res.1)))
  }

  // ---------------------------------------------------------------------
  // What resolution establishes

  /**
    Every occupied slot holds an entry whose bucket is resolved and which
    lands on that slot under its bucket's recorded displacement.
  */
  ghost predicate OccupantsPlaced(hashes: seq<Triple>, pending: set<nat>, occ: seq<Option<nat>>, disps: seq<Pair>)
    requires |occ| == |hashes| && |disps| == NumBuckets(|hashes|)
  {
    forall s :: 0 <= s < |occ| && occ[s].Some? ==>
      && occ[s].value < |hashes|
      && BucketOf(hashes, occ[s].value) !in pending
      && EntrySlot(hashes, disps, occ[s].value) == s
  }

  /** Every entry of a resolved bucket is found on its slot. */
  ghost predicate ResolvedEntriesPlaced(hashes: seq<Triple>, pending: set<nat>, occ: seq<Option<nat>>, disps: seq<Pair>)
    requires |occ| == |hashes| && |disps| == NumBuckets(|hashes|)
  {
    forall i :: 0 <= i < |hashes| && BucketOf(hashes, i) !in pending ==> occ[EntrySlot(hashes, disps, i)] == Some(i)
  }

  /** Resolving one bucket keeps both placement facts, with that bucket no longer pending. */
  lemma ResolveStep(hashes: seq<Triple>, order: seq<Bucket>, occ: seq<Option<nat>>, disps: seq<Pair>, dd: (nat, nat))
    requires |occ| == |hashes| && |disps| == NumBuckets(|hashes|)
    requires order != [] && Genuine(hashes, order[0]) && order[0].index !in Indices(order[1..])
    requires KeysInRange(hashes, order[0].keys)
    requires Fits(hashes, order[0].keys, occ, Cast(dd.0, dd.1))
    requires OccupantsPlaced(hashes, Indices(order), occ, disps)
    requires ResolvedEntriesPlaced(hashes, Indices(order), occ, disps)
    ensures var b := order[0];
      var d := Cast(dd.0, dd.1);
      && OccupantsPlaced(hashes, Indices(order[1..]), Place(hashes, occ, b.keys, d), disps[b.index := d])
      && ResolvedEntriesPlaced(hashes, Indices(order[1..]), Place(hashes, occ, b.keys, d), disps[b.index := d])
  {
    var b := order[0];
    var d := Cast(dd.0, dd.1);
    var occ' := Place(hashes, occ, b.keys, d);
    var disps' := disps[b.index := d];
    var pending := Indices(order);
    var pending' := Indices(order[1..]);
    assert pending == {b.index} + pending';
    KeysInMembers(hashes, b.index, |hashes|);
    PlaceInside(hashes, occ, b.keys, d);
    forall s | 0 <= s < |occ'| && occ'[s].Some?
      ensures occ'[s].value < |hashes| && BucketOf(hashes, occ'[s].value) !in pending'
      ensures EntrySlot(hashes, disps', occ'[s].value) == s
    {
      if j :| 0 <= j < |b.keys| && Slot(hashes, b.keys[j], d) == s {
        assert b.keys[j] in b.keys;
      } else {
        PlaceOutside(hashes, occ, b.keys, d, s);
      }
    }
    forall i | 0 <= i < |hashes| && BucketOf(hashes, i) !in pending'
      ensures occ'[EntrySlot(hashes, disps', i)] == Some(i)
    {
      if BucketOf(hashes, i) == b.index {
        assert i in b.keys;
      } else {
        var s := EntrySlot(hashes, disps, i);
        assert occ[s] == Some(i);
        PlaceOutside(hashes, occ, b.keys, d, s);
      }
    }
  }

  lemma {:induction false} ResolveKeepsPlacement(hashes: seq<Triple>, order: seq<Bucket>, occ: seq<Option<nat>>, disps: seq<Pair>)
    requires |occ| == |hashes| && |disps| == NumBuckets(|hashes|)
    requires forall p :: 0 <= p < |order| ==> Genuine(hashes, order[p]) && KeysInRange(hashes, order[p].keys)
    requires DistinctIndices(order)
    requires OccupantsPlaced(hashes, Indices(order), occ, disps)
    requires ResolvedEntriesPlaced(hashes, Indices(order), occ, disps)
    ensures InTable(hashes, order, |disps|)
    ensures var r := Resolve(hashes, order, occ, disps);
      r.Some? ==> OccupantsPlaced(hashes, {}, r.value.1, r.value.0) && ResolvedEntriesPlaced(hashes, {}, r.value.1, r.value.0)
    decreases |order|
  {
    if order != [] {
      var b := order[0];
      match FirstFit(hashes, b.keys, occ)
      case None =>
      case Some(dd) =>
        FirstFitIsFirst(hashes, b.keys, occ);
        IndicesMembers(order[1..]);
        ResolveStep(hashes, order, occ, disps, dd);
        ResolveKeepsPlacement(hashes, order[1..], Place(hashes, occ, b.keys, Cast(dd.0, dd.1)), disps[b.index := Cast(dd.0, dd.1)]);
    }
  }

  /** Resolution occupies one slot per member of every bucket it resolves. */
  lemma {:induction false} ResolveCount(hashes: seq<Triple>, order: seq<Bucket>, occ: seq<Option<nat>>, disps: seq<Pair>)
    requires |occ| == |hashes| && InTable(hashes, order, |disps|)
    ensures var r := Resolve(hashes, order, occ, disps);
      r.Some? ==> Count(r.value.1) == Count(occ) + TotalKeys(order)
    decreases |order|
  {
    if order != [] {
      var b := order[0];
      match FirstFit(hashes, b.keys, occ)
      case None =>
      case Some(dd) =>
        FirstFitIsFirst(hashes, b.keys, occ);
        PlaceCount(hashes, occ, b.keys, Cast(dd.0, dd.1));
        ResolveCount(hashes, order[1..], Place(hashes, occ, b.keys, Cast(dd.0, dd.1)), disps[b.index := Cast(dd.0, dd.1)]);
    }
  }

  /**
    A successful resolution leaves no slot empty (so the `unwrap` never
    panics), and every entry sits on the slot its bucket's displacement
    selects, and on no other.
  */
  lemma ResolvedFills(hashes: seq<Triple>)
    ensures var r := Resolved(hashes);
      r.Some? ==>
        && |r.value.0| == NumBuckets(|hashes|) && |r.value.1| == |hashes|
        && (forall s :: 0 <= s < |hashes| ==> r.value.1[s].Some?)
        && OccupantsPlaced(hashes, {}, r.value.1, r.value.0)
        && ResolvedEntriesPlaced(hashes, {}, r.value.1, r.value.0)
  {
    var order := ResolutionOrder(hashes);
    var occ := Vacant(|hashes|);
    var disps := ZeroPairs(NumBuckets(|hashes|));
    ResolutionOrderFacts(hashes);
    ResolveKeepsPlacement(hashes, order, occ, disps);
    ResolveCount(hashes, order, occ, disps);
    CountEmpty(occ);
    var r := Resolved(hashes);
    if r.Some? {
      CountFull(r.value.1);
    }
  }

  /** `p` lists every position in `[0, n)` exactly once. */
  predicate IsPermutation(p: seq<nat>, n: nat)
  {
    && |p| == n
    && (forall s :: 0 <= s < n ==> p[s] < n)
    && (forall s, t :: 0 <= s < t < n ==> p[s] != p[t])
  }

  /**
    On success `try_generate` yields one displacement pair per bucket and a
    slot table that is a permutation of the entries, in which every entry is
    stored exactly at the slot its bucket's displacement selects.
  */
  lemma PlacementCorrect(hashes: seq<Triple>)
    ensures Placement(hashes).Some? ==>
      var st := Placement(hashes).value;
      && |st.displacements| == NumBuckets(|hashes|)
      && IsPermutation(st.indices, |hashes|)
      && (forall i :: 0 <= i < |hashes| ==> st.indices[EntrySlot(hashes, st.displacements, i)] == i)
      && (forall s :: 0 <= s < |hashes| ==> EntrySlot(hashes, st.displacements, st.indices[s]) == s)
  {
    ResolvedFills(hashes);
  }

  /** Every pair recorded by resolution has both counters below `n` when `n` is a hash word. */
  lemma {:induction false} ResolveBounds(hashes: seq<Triple>, order: seq<Bucket>, occ: seq<Option<nat>>, disps: seq<Pair>)
    requires |occ| == |hashes| && InTable(hashes, order, |disps|)
    requires |hashes| <= HashMax
    requires forall b :: 0 <= b < |disps| ==> disps[b].0 < |hashes| && disps[b].1 < |hashes|
    ensures var r := Resolve(hashes, order, occ, disps);
      r.Some? ==> forall b :: 0 <= b < |r.value.0| ==> r.value.0[b].0 < |hashes| && r.value.0[b].1 < |hashes|
    decreases |order|
  {
    if order != [] {
      var b := order[0];
      match FirstFit(hashes, b.keys, occ)
      case None =>
      case Some(dd) =>
        FirstFitIsFirst(hashes, b.keys, occ);
        ResolveBounds(hashes, order[1..], Place(hashes, occ, b.keys, Cast(dd.0, dd.1)), disps[b.index := Cast(dd.0, dd.1)]);
    }
  }

  /**
    When there are at most `H::max_value()` entries, every displacement
    pair has `d1, d2 < n`: the `usize as H` casts lose nothing.
  */
  lemma DisplacementsBounded(hashes: seq<Triple>)
    requires |hashes| <= HashMax
    ensures Placement(hashes).Some? ==>
      forall b :: 0 <= b < |Placement(hashes).value.displacements| ==>
        Placement(hashes).value.displacements[b].0 < |hashes| && Placement(hashes).value.displacements[b].1 < |hashes|
  {
    ResolutionOrderFacts(hashes);
    ResolveBounds(hashes, ResolutionOrder(hashes), Vacant(|hashes|), ZeroPairs(NumBuckets(|hashes|)));
  }

  /** With no entries there are no buckets, and the attempt succeeds with empty tables. */
  lemma PlacementOfNoEntries()
    ensures Placement([]) == Some(MapState([], []))
  {
    assert ResolutionOrder([]) == [];
  }

  // ---------------------------------------------------------------------
  // Failure

  /** No pair in `[0, n)²` works for the bucket. */
  ghost predicate NoPairWorks(hashes: seq<Triple>, keys: seq<nat>, occ: seq<Option<nat>>)
    requires |occ| == |hashes| && KeysInRange(hashes, keys)
  {
    NoneFitFrom(hashes, keys, occ, 0, 0)
  }

  /** The search for a bucket finds nothing exactly when no pair works for it. */
  lemma FirstFitNoneIff(hashes: seq<Triple>, keys: seq<nat>, occ: seq<Option<nat>>)
    requires |occ| == |hashes| && KeysInRange(hashes, keys)
    ensures FirstFit(hashes, keys, occ).None? <==> NoPairWorks(hashes, keys, occ)
  {
    if FirstFit(hashes, keys, occ).None? {
      FirstFitFromNone(hashes, keys, occ, 0, 0);
    } else {
      FirstFitFromSome(hashes, keys, occ, 0, 0);
    }
  }

  /**
    Bucket `k` of `order` is where resolution gets stuck: the buckets before
    it were all resolved, and no pair works for it against the slots they took.
  */
  ghost predicate StuckAt(hashes: seq<Triple>, order: seq<Bucket>, occ: seq<Option<nat>>, disps: seq<Pair>, k: nat)
    requires |occ| == |hashes| && InTable(hashes, order, |disps|)
    requires k < |order|
  {
    assert InTable(hashes, order[..k], |disps|);
    var before := Resolve(hashes, order[..k], occ, disps);
    before.Some? && NoPairWorks(hashes, order[k].keys, before.value.1)
  }

  /**
    When the first bucket is placed with `dd`, it is not stuck, and bucket
    `k` of the rest is stuck exactly when bucket `k + 1` of the whole is.
  */
  lemma StuckShift(hashes: seq<Triple>, order: seq<Bucket>, occ: seq<Option<nat>>, disps: seq<Pair>, dd: (nat, nat))
    requires |occ| == |hashes| && InTable(hashes, order, |disps|)
    requires order != [] && FirstFit(hashes, order[0].keys, occ) == Some(dd)
    ensures var b := order[0];
      var occ' := Place(hashes, occ, b.keys, Cast(dd.0, dd.1));
      var disps' := disps[b.index := Cast(dd.0, dd.1)];
      && !StuckAt(hashes, order, occ, disps, 0)
      && forall k :: 1 <= k < |order| ==>
           (StuckAt(hashes, order, occ, disps, k) <==> StuckAt(hashes, order[1..], occ', disps', k - 1))
  {
    var b := order[0];
    var occ' := Place(hashes, occ, b.keys, Cast(dd.0, dd.1));
    var disps' := disps[b.index := Cast(dd.0, dd.1)];
    var rest := order[1..];
    FirstFitNoneIff(hashes, b.keys, occ);
    assert order[..0] == [];
    forall k | 1 <= k <= |order|
      ensures Resolve(hashes, order[..k], occ, disps) == Resolve(hashes, rest[..k - 1], occ', disps')
    {
      assert order[..k][0] == b && order[..k][1..] == rest[..k - 1];
    }
    forall k | 1 <= k < |order|
      ensures StuckAt(hashes, order, occ, disps, k) <==> StuckAt(hashes, rest, occ', disps', k - 1)
    {
      assert order[k] == rest[k - 1];
    }
  }

  lemma {:induction false} ResolveNoneIffStuck(hashes: seq<Triple>, order: seq<Bucket>, occ: seq<Option<nat>>, disps: seq<Pair>)
    requires |occ| == |hashes| && InTable(hashes, order, |disps|)
    ensures Resolve(hashes, order, occ, disps).None? <==> exists k :: 0 <= k < |order| && StuckAt(hashes, order, occ, disps, k)
    decreases |order|
  {
    if order != [] {
      var b := order[0];
      match FirstFit(hashes, b.keys, occ)
      case None =>
        FirstFitNoneIff(hashes, b.keys, occ);
        assert order[..0] == [];
        assert StuckAt(hashes, order, occ, disps, 0);
      case Some(dd) =>
        var occ' := Place(hashes, occ, b.keys, Cast(dd.0, dd.1));
        var disps' := disps[b.index := Cast(dd.0, dd.1)];
        var rest := order[1..];
        ResolveNoneIffStuck(hashes, rest, occ', disps');
        StuckShift(hashes, order, occ, disps, dd);
        if exists k :: 0 <= k < |order| && StuckAt(hashes, order, occ, disps, k) {
          var k :| 0 <= k < |order| && StuckAt(hashes, order, occ, disps, k);
          assert StuckAt(hashes, rest, occ', disps', k - 1);
        }
        if exists k :: 0 <= k < |rest| && StuckAt(hashes, rest, occ', disps', k) {
          var k :| 0 <= k < |rest| && StuckAt(hashes, rest, occ', disps', k);
          assert StuckAt(hashes, order, occ, disps, k + 1);
        }
    }
  }

  /** Some bucket of the resolution order gets stuck. */
  ghost predicate SomeBucketStuck(hashes: seq<Triple>)
  {
    ResolutionOrderFacts(hashes);
    exists k :: 0 <= k < |ResolutionOrder(hashes)| &&
      StuckAt(hashes, ResolutionOrder(hashes), Vacant(|hashes|), ZeroPairs(NumBuckets(|hashes|)), k)
  }

  /**
    `try_generate` returns `None` exactly when, in resolution order, some
    bucket finds no working pair against the slots taken by the buckets before it.
  */
  lemma PlacementNoneIffStuck(hashes: seq<Triple>)
    ensures Placement(hashes).None? <==> SomeBucketStuck(hashes)
  {
    ResolutionOrderFacts(hashes);
    ResolveNoneIffStuck(hashes, ResolutionOrder(hashes), Vacant(|hashes|), ZeroPairs(NumBuckets(|hashes|)));
  }
}
