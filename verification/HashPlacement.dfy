/**
 * What a hash index must look like for lookups to be right, stated on values:
 * `hash` and `index` are the slots in order, `stored` gives the stored hash of
 * every dense-array entry, and `loc` says in which slot an entry sits.
 */
module HashPlacement {
  import opened Probe

  const INDEX_EMPTY := -1
  const INDEX_DELETED := -2
  const HASH_EMPTY: nat := 0
  const HASH_DELETED: nat := 1

  /** Slot s is on h's probe path, and no empty slot comes before it. */
  ghost predicate Reachable(hash: seq<nat>, h: nat, s: nat)
    requires IsSlotCount(|hash|)
  {
    exists t: nat :: ReachedAt(hash, h, s, t)
  }

  ghost predicate ReachedAt(hash: seq<nat>, h: nat, s: nat, t: nat)
    requires IsSlotCount(|hash|)
  {
    && Slot(h, |hash|, t) == s
    && NoEmptyBefore(hash, h, t)
  }

  ghost predicate NoEmptyBefore(hash: seq<nat>, h: nat, t: nat)
    requires IsSlotCount(|hash|)
  {
    forall u :: 0 <= u < t ==> Occupied(hash, h, u)
  }

  ghost predicate Occupied(hash: seq<nat>, h: nat, t: nat)
    requires IsSlotCount(|hash|)
  {
    SlotInRange(h, |hash|, t);
    hash[Slot(h, |hash|, t)] != HASH_EMPTY
  }

  /** Look t of the probe sees a slot in use. */
  ghost predicate Taken(hash: seq<nat>, h: nat, t: nat)
    requires IsSlotCount(|hash|)
  {
    SlotInRange(h, |hash|, t);
    hash[Slot(h, |hash|, t)] >= 2
  }

  ghost predicate TakenBefore(hash: seq<nat>, h: nat, t: nat)
    requires IsSlotCount(|hash|)
  {
    forall u :: 0 <= u < t ==> Taken(hash, h, u)
  }

  /** Slot s is the first on h's probe path that is empty or a tombstone. */
  ghost predicate FirstFree(hash: seq<nat>, h: nat, s: nat)
    requires IsSlotCount(|hash|)
  {
    s < |hash| && hash[s] < 2 && exists t: nat :: TakenBefore(hash, h, t) && Slot(h, |hash|, t) == s
  }

  ghost predicate SlotOk(h: nat, x: int) {
    || (h == HASH_EMPTY && x == INDEX_EMPTY)
    || (h == HASH_DELETED && x == INDEX_DELETED)
    || (h >= 2 && x >= 0)
  }

  /** The entries in `loc` are placed one to one on the in-use slots, reachably. */
  ghost predicate Placed(hash: seq<nat>, index: seq<int>, stored: seq<nat>, loc: map<int, nat>) {
    && IsSlotCount(|hash|)
    && |index| == |hash|
    && (forall s :: 0 <= s < |hash| ==> SlotOk(hash[s], index[s]))
    && (forall s :: 0 <= s < |hash| && index[s] >= 0 ==> index[s] in loc && loc[index[s]] == s)
    && (forall i :: i in loc ==> EntryPlaced(hash, index, stored, loc, i))
    && multiset(hash)[HASH_EMPTY] + multiset(hash)[HASH_DELETED] + |loc| == |hash|
  }

  ghost predicate EntryPlaced(hash: seq<nat>, index: seq<int>, stored: seq<nat>, loc: map<int, nat>, i: int)
    requires IsSlotCount(|hash|) && |index| == |hash|
    requires i in loc
  {
    && 0 <= i < |stored|
    && loc[i] < |hash|
    && index[loc[i]] == i
    && hash[loc[i]] == stored[i]
    && stored[i] >= 2
    && Reachable(hash, stored[i], loc[i])
  }

  /** A probe that has seen all n slots occupied contradicts a free slot. */
  lemma FullScanImpossible(hash: seq<nat>, h: nat)
    requires IsSlotCount(|hash|)
    requires multiset(hash)[HASH_EMPTY] > 0
    ensures !NoEmptyBefore(hash, h, |hash|)
  {
    assert HASH_EMPTY in hash;
    var s :| 0 <= s < |hash| && hash[s] == HASH_EMPTY;
    var t := SlotReached(h, |hash|, s);
    assert !Occupied(hash, h, t);
  }

  /** Filling slots, or turning them into tombstones, keeps entries reachable. */
  lemma ReachableKept(hash: seq<nat>, hash': seq<nat>, h: nat, s: nat)
    requires IsSlotCount(|hash|) && |hash'| == |hash|
    requires forall k :: 0 <= k < |hash| && hash[k] != HASH_EMPTY ==> hash'[k] != HASH_EMPTY
    requires Reachable(hash, h, s)
    ensures Reachable(hash', h, s)
  {
    var t: nat :| ReachedAt(hash, h, s, t);
    forall u | 0 <= u < t ensures Occupied(hash', h, u) {
      assert Occupied(hash, h, u);
      SlotInRange(h, |hash|, u);
    }
    assert ReachedAt(hash', h, s, t);
  }

  /** Writing entry i into a free slot on its own probe path. */
  lemma InsertKeepsPlaced(hash: seq<nat>, index: seq<int>, stored: seq<nat>, loc: map<int, nat>, i: int, s: nat)
    requires Placed(hash, index, stored, loc)
    requires 0 <= i < |stored| && i !in loc && stored[i] >= 2
    requires s < |hash| && hash[s] < 2
    requires Reachable(hash, stored[i], s)
    ensures Placed(hash[s := stored[i]], index[s := i], stored, loc[i := s])
  {
    var hash', index', loc' := hash[s := stored[i]], index[s := i], loc[i := s];
    assert loc'.Keys == loc.Keys + {i};
    forall j | j in loc' ensures EntryPlaced(hash', index', stored, loc', j) {
      if j == i {
        ReachableKept(hash, hash', stored[i], s);
      } else {
        assert EntryPlaced(hash, index, stored, loc, j);
        ReachableKept(hash, hash', stored[j], loc[j]);
      }
    }
  }

  /** Turning entry i's slot into a tombstone. */
  lemma RemoveKeepsPlaced(hash: seq<nat>, index: seq<int>, stored: seq<nat>, loc: map<int, nat>, i: int)
    requires Placed(hash, index, stored, loc)
    requires i in loc && loc[i] < |hash|
    ensures Placed(hash[loc[i] := HASH_DELETED], index[loc[i] := INDEX_DELETED], stored, loc - {i})
  {
    var s := loc[i];
    var hash', index', loc' := hash[s := HASH_DELETED], index[s := INDEX_DELETED], loc - {i};
    assert EntryPlaced(hash, index, stored, loc, i);
    assert loc'.Keys == loc.Keys - {i};
    forall j | j in loc' ensures EntryPlaced(hash', index', stored, loc', j) {
      assert EntryPlaced(hash, index, stored, loc, j);
      ReachableKept(hash, hash', stored[j], loc[j]);
    }
  }

  /** Renaming entry `last` to the unused number `i` that carries the same hash. */
  lemma RenameKeepsPlaced(hash: seq<nat>, index: seq<int>, stored: seq<nat>, loc: map<int, nat>, last: int, i: int)
    requires Placed(hash, index, stored, loc)
    requires last in loc && loc[last] < |hash| && i !in loc
    requires 0 <= last < |stored| && 0 <= i < |stored| && stored[i] == stored[last]
    ensures Placed(hash, index[loc[last] := i], stored, (loc - {last})[i := loc[last]])
  {
    var s := loc[last];
    var index', loc' := index[s := i], (loc - {last})[i := s];
    assert EntryPlaced(hash, index, stored, loc, last);
    assert (loc - {last}).Keys == loc.Keys - {last};
    assert loc'.Keys == (loc.Keys - {last}) + {i};
    forall j | j in loc' ensures EntryPlaced(hash, index', stored, loc', j) {
      if j != i {
        assert EntryPlaced(hash, index, stored, loc, j);
      }
    }
  }

  /** Entries outside `loc` may change or vanish, and new ones may be added. */
  lemma StoredMayChange(hash: seq<nat>, index: seq<int>, stored: seq<nat>, stored': seq<nat>, loc: map<int, nat>)
    requires Placed(hash, index, stored, loc)
    requires forall i :: i in loc ==> 0 <= i < |stored'| && (i < |stored| ==> stored'[i] == stored[i])
    ensures Placed(hash, index, stored', loc)
  {
    forall i | i in loc ensures EntryPlaced(hash, index, stored', loc, i) {
      assert EntryPlaced(hash, index, stored, loc, i);
    }
  }

  lemma EmptyIsPlaced(hash: seq<nat>, index: seq<int>, stored: seq<nat>)
    requires IsSlotCount(|hash|) && |index| == |hash|
    requires forall s :: 0 <= s < |hash| ==> hash[s] == HASH_EMPTY && index[s] == INDEX_EMPTY
    ensures multiset(hash)[HASH_EMPTY] == |hash| && multiset(hash)[HASH_DELETED] == 0
    ensures Placed(hash, index, stored, map[])
  {
    AllEmpty(hash);
  }

  lemma {:induction false} AllEmpty(hash: seq<nat>)
    requires forall s :: 0 <= s < |hash| ==> hash[s] == HASH_EMPTY
    ensures multiset(hash)[HASH_EMPTY] == |hash| && multiset(hash)[HASH_DELETED] == 0
  {
    if hash != [] {
      var n := |hash| - 1;
      AllEmpty(hash[..n]);
      assert hash == hash[..n] + [hash[n]];
    }
  }
}
