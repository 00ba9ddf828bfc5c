/** The hash index of stb_ds: slot arrays, counters and thresholds, and how it is (re)built. */
module HashIndexes {
  import opened Powers
  import opened Probe
  import opened HashPlacement

  function UsedThreshold(n: nat): nat { n - n / 4 }

  function TombstoneThreshold(n: nat): nat { n / 8 + n / 16 }

  function ShrinkThreshold(n: nat): nat { if n <= BUCKET_LENGTH then 0 else n / 4 }

  class HashIndex {
    const slotCount: nat
    const seed: nat
    const hash: array<nat>
    const index: array<int>
    var usedCount: nat
    var tombstoneCount: nat
    ghost var loc: map<int, nat>

    /** Storage for the slots; the bucket loops of MakeHashIndex clear it. */
    constructor (slotCount: nat, seed: nat)
      ensures this.slotCount == slotCount && this.seed == seed
      ensures hash.Length == slotCount && index.Length == slotCount
      ensures hash as object != index
      ensures fresh(hash) && fresh(index)
      ensures usedCount == 0 && tombstoneCount == 0 && loc == map[]
    {
      this.slotCount, this.seed := slotCount, seed;
      hash, index := new nat[slotCount], new int[slotCount];
      usedCount, tombstoneCount, loc := 0, 0, map[];
    }

    ghost predicate Ok(stored: seq<nat>)
      reads this, hash, index
    {
      && hash.Length == slotCount && index.Length == slotCount
      && hash as object != index
      && Placed(hash[..], index[..], stored, loc)
      && tombstoneCount == multiset(hash[..])[HASH_DELETED]
    }

    ghost predicate HasRoom()
      reads this, hash
    {
      multiset(hash[..])[HASH_EMPTY] > 0
    }

    /** Writes entry i with hash h into the free slot s. */
    method Occupy(s: nat, h: nat, i: nat, ghost stored: seq<nat>)
      requires Ok(stored)
      requires s < slotCount && hash[s] < 2
      requires i < |stored| && i !in loc && h == stored[i] >= 2
      requires Reachable(hash[..], h, s)
      modifies this`tombstoneCount, this`loc, hash, index
      ensures Ok(stored)
      ensures loc == old(loc)[i as int := s]
      ensures multiset(hash[..])[HASH_EMPTY] ==
              old(multiset(hash[..])[HASH_EMPTY]) - (if old(hash[s]) == HASH_EMPTY then 1 else 0)
      ensures tombstoneCount == old(tombstoneCount) - (if old(hash[s]) == HASH_DELETED then 1 else 0)
    {
      ghost var hash0, index0 := hash[..], index[..];
      InsertKeepsPlaced(hash0, index0, stored, loc, i, s);
      if hash[s] == HASH_DELETED {
        assert hash0[s] == HASH_DELETED;
        tombstoneCount := tombstoneCount - 1;
      }
      hash[s], index[s] := h, i;
      loc := loc[i as int := s];
      assert hash[..] == hash0[s := h];
      assert index[..] == index0[s := i as int];
    }

    /** Deletes entry i: its slot becomes a tombstone. */
    method Tombstone(s: nat, i: int, ghost stored: seq<nat>)
      requires Ok(stored)
      requires i in loc && loc[i] == s < slotCount
      requires usedCount > 0
      modifies this`usedCount, this`tombstoneCount, this`loc, hash, index
      ensures Ok(stored)
      ensures loc == old(loc) - {i}
      ensures usedCount == old(usedCount) - 1 && tombstoneCount == old(tombstoneCount) + 1
      ensures multiset(hash[..])[HASH_EMPTY] == old(multiset(hash[..])[HASH_EMPTY])
    {
      ghost var hash0, index0 := hash[..], index[..];
      RemoveKeepsPlaced(hash0, index0, stored, loc, i);
      assert EntryPlaced(hash0, index0, stored, loc, i);
      usedCount, tombstoneCount := usedCount - 1, tombstoneCount + 1;
      hash[s], index[s] := HASH_DELETED, INDEX_DELETED;
      loc := loc - {i};
      assert hash[..] == hash0[s := HASH_DELETED];
      assert index[..] == index0[s := INDEX_DELETED];
    }

    /** Points the slot of entry `last` at number i instead. */
    method Redirect(s: nat, last: int, i: nat, ghost stored: seq<nat>)
      requires Ok(stored)
      requires last in loc && loc[last] == s < slotCount && i !in loc
      requires 0 <= last < |stored| && i < |stored| && stored[i] == stored[last]
      modifies this`loc, index
      ensures Ok(stored)
      ensures loc == (old(loc) - {last})[i as int := s]
    {
      ghost var hash0, index0 := hash[..], index[..];
      RenameKeepsPlaced(hash0, index0, stored, loc, last, i);
      index[s] := i;
      loc := (loc - {last})[i as int := s];
      assert index[..] == index0[s := i as int];
    }

    /** The copy-out probe of the rebuild: entry i goes to the first empty slot on its path. */
    method Rehash(h: nat, i: nat, ghost stored: seq<nat>)
      requires Ok(stored) && HasRoom()
      requires i < |stored| && i !in loc && h == stored[i] >= 2
      modifies this`tombstoneCount, this`loc, hash, index
      ensures Ok(stored)
      ensures loc.Keys == old(loc.Keys) + {i as int}
      ensures loc[i] < slotCount && old(hash[..])[loc[i]] == HASH_EMPTY && Reachable(old(hash[..]), h, loc[i])
      ensures multiset(hash[..])[HASH_EMPTY] == old(multiset(hash[..])[HASH_EMPTY]) - 1
      ensures tombstoneCount == old(tombstoneCount)
    {
      var s := FirstEmpty(h);
      Occupy(s, h, i, stored);
    }

    method FirstEmpty(h: nat) returns (s: nat)
      requires hash.Length == slotCount && IsSlotCount(slotCount) && HasRoom()
      ensures s < slotCount && hash[s] == HASH_EMPTY
      ensures Reachable(hash[..], h, s)
    {
      var pos, step := h % slotCount, BUCKET_LENGTH;
      ghost var k := 0;
      while true
        invariant k >= 0 && BUCKET_LENGTH * k < slotCount
        invariant pos == Home(h, slotCount, k) && step == BUCKET_LENGTH * (k + 1)
        invariant NoEmptyBefore(hash[..], h, BUCKET_LENGTH * k)
        decreases slotCount - BUCKET_LENGTH * k
      {
        var limit := pos % BUCKET_LENGTH;
        var found;
        found, s := EmptyInBucket(h, pos, limit, BUCKET_LENGTH, k, 0);
        if found { return; }
        found, s := EmptyInBucket(h, pos, 0, limit, k, BUCKET_LENGTH - limit);
        if found { return; }
        NextRound(hash[..], h, k);
        pos := (pos + step) % slotCount;
        step := step + BUCKET_LENGTH;
        k := k + 1;
      }
    }

    /** Slots from..to of the bucket at pos, which are looks j.. of round k. */
    method EmptyInBucket(h: nat, pos: nat, from: nat, to: nat, ghost k: nat, ghost j: nat)
      returns (found: bool, s: nat)
      requires hash.Length == slotCount && IsSlotCount(slotCount)
      requires pos == Home(h, slotCount, k)
      requires ScanRange(pos, from, to, j)
      requires NoEmptyBefore(hash[..], h, BUCKET_LENGTH * k + j)
      ensures found ==> s < slotCount && hash[s] == HASH_EMPTY && Reachable(hash[..], h, s)
      ensures !found ==> NoEmptyBefore(hash[..], h, BUCKET_LENGTH * k + j + to - from)
    {
      s := 0;
      var z := from;
      ghost var slots := hash[..];
      while z < to
        invariant from <= z <= to
        invariant NoEmptyBefore(slots, h, BUCKET_LENGTH * k + j + z - from)
      {
        s := pos / BUCKET_LENGTH * BUCKET_LENGTH + z;
        ghost var t := BUCKET_LENGTH * k + j + z - from;
        LookAt(h, slotCount, k, from, to, j, z);
        if hash[s] == HASH_EMPTY {
          assert ReachedAt(slots, h, s, t);
          return true, s;
        }
        assert Occupied(slots, h, t);
        z := z + 1;
      }
      return false, 0;
    }
  }

  /** The two bucket scans: from pos to the end, then from the start to pos. */
  ghost predicate ScanRange(pos: nat, from: nat, to: nat, j: nat) {
    || (from == pos % BUCKET_LENGTH && to == BUCKET_LENGTH && j == 0)
    || (from == 0 && to == pos % BUCKET_LENGTH && j == BUCKET_LENGTH - to)
  }

  /** Scanning slot z of such a range is look j + z - from of round k. */
  lemma LookAt(h: nat, n: nat, k: nat, from: nat, to: nat, j: nat, z: nat)
    requires IsSlotCount(n)
    requires ScanRange(Home(h, n, k), from, to, j)
    requires from <= z < to
    ensures Slot(h, n, BUCKET_LENGTH * k + j + z - from) ==
            Home(h, n, k) / BUCKET_LENGTH * BUCKET_LENGTH + z < n
  {
    SlotAt(h, n, k, j + z - from);
    ScanInBucket(Home(h, n, k), from, to, j, z);
  }

  lemma ScanInBucket(pos: nat, from: nat, to: nat, j: nat, z: nat)
    requires ScanRange(pos, from, to, j) && from <= z < to
    ensures InBucket(pos, j + z - from) == pos / BUCKET_LENGTH * BUCKET_LENGTH + z
  {
    if j == 0 {
      assert pos % 8 + (z - from) == z;
    } else {
      assert pos % 8 + (j + z - from) == 8 + z;
    }
  }

  /** After a full round over k + 1 buckets some bucket is still unseen. */
  lemma NextRound(hash: seq<nat>, h: nat, k: nat)
    requires IsSlotCount(|hash|) && multiset(hash)[HASH_EMPTY] > 0
    requires BUCKET_LENGTH * k < |hash|
    requires NoEmptyBefore(hash, h, BUCKET_LENGTH * (k + 1))
    ensures BUCKET_LENGTH * (k + 1) < |hash|
    ensures (Home(h, |hash|, k) + BUCKET_LENGTH * (k + 1)) % |hash| == Home(h, |hash|, k + 1)
  {
    NextHome(h, |hash|, k);
    FullScanImpossible(hash, h);
    SlotCountIsMultiple(|hash|);
  }

  /**
   * A new index of slotCount slots; with an old index, its in-use slots are
   * copied over by their stored hashes. `cost` counts every slot cleared and
   * every old slot scanned.
   */
  method MakeHashIndex(slotCount: nat, ot: HashIndex?, seed: nat, ghost stored: seq<nat>)
    returns (t: HashIndex, ghost cost: nat)
    requires IsSlotCount(slotCount)
    requires ot != null ==> ot.Ok(stored) && |ot.loc| < slotCount && ot.usedCount == |ot.loc|
    ensures fresh(t) && fresh(t.hash) && fresh(t.index)
    ensures t.slotCount == slotCount && t.Ok(stored) && t.tombstoneCount == 0
    ensures t.seed == if ot != null then ot.seed else seed
    ensures t.loc.Keys == if ot != null then ot.loc.Keys else {}
    ensures t.usedCount == |t.loc|
    ensures cost == slotCount + (if ot != null then ot.slotCount else 0)
  {
    t := new HashIndex(slotCount, if ot != null then ot.seed else seed);
    cost := ClearSlots(t, stored);
    if ot != null {
      t.usedCount := ot.usedCount;
      ghost var scanned := CopyOut(t, ot, stored);
      cost := cost + scanned;
    }
  }

  method ClearSlots(t: HashIndex, ghost stored: seq<nat>) returns (ghost cost: nat)
    requires t.hash.Length == t.slotCount == t.index.Length && t.hash as object != t.index
    requires IsSlotCount(t.slotCount) && t.loc == map[] && t.tombstoneCount == 0
    modifies t.hash, t.index
    ensures t.Ok(stored)
    ensures cost == t.slotCount
  {
    cost := 0;
    var s := 0;
    while s < t.slotCount
      invariant 0 <= s <= t.slotCount && cost == s
      invariant forall k :: 0 <= k < s ==> t.hash[k] == HASH_EMPTY && t.index[k] == INDEX_EMPTY
      modifies t.hash, t.index
    {
      t.hash[s], t.index[s] := HASH_EMPTY, INDEX_EMPTY;
      s, cost := s + 1, cost + 1;
    }
    EmptyIsPlaced(t.hash[..], t.index[..], stored);
  }

  /** Copies the in-use slots of the old index into the cleared new one. */
  method CopyOut(t: HashIndex, ot: HashIndex, ghost stored: seq<nat>) returns (ghost scanned: nat)
    requires t != ot && {t, t.hash as object, t.index} !! {ot, ot.hash as object, ot.index}
    requires ot.Ok(stored) && |ot.loc| < t.slotCount
    requires t.Ok(stored) && t.loc == map[] && t.tombstoneCount == 0
    modifies t`tombstoneCount, t`loc, t.hash, t.index
    ensures t.Ok(stored) && t.loc.Keys == ot.loc.Keys && t.tombstoneCount == 0
    ensures scanned == ot.slotCount
  {
    scanned := 0;
    ghost var hash0, index0, loc0 := ot.hash[..], ot.index[..], ot.loc;
    var s := 0;
    while s < ot.slotCount
      invariant 0 <= s <= ot.slotCount && scanned == s
      invariant ot.hash[..] == hash0 && ot.index[..] == index0
      invariant t.Ok(stored) && t.tombstoneCount == 0
      invariant CopiedBelow(t.loc, loc0, s)
      modifies t`tombstoneCount, t`loc, t.hash, t.index
    {
      var i := ot.index[s];
      assert i == index0[s] && ot.hash[s] == hash0[s];
      CopyOne(hash0, index0, stored, loc0, t.loc, s);
      if i >= 0 {
        t.Rehash(ot.hash[s], i, stored);
      }
      s, scanned := s + 1, scanned + 1;
    }
    CopiedAll(hash0, index0, stored, loc0, t.loc);
  }

  /** Exactly the entries sitting in the first s slots have been copied. */
  ghost predicate CopiedBelow(copied: map<int, nat>, loc: map<int, nat>, s: nat) {
    forall i :: i in copied <==> i in loc && loc[i] < s
  }

  lemma CopyOne(hash: seq<nat>, index: seq<int>, stored: seq<nat>, loc: map<int, nat>, copied: map<int, nat>, s: nat)
    requires Placed(hash, index, stored, loc) && s < |hash|
    requires CopiedBelow(copied, loc, s)
    ensures |copied| <= |loc|
    ensures index[s] < 0 ==> CopiedBelow(copied, loc, s + 1)
    ensures index[s] >= 0 ==>
              && index[s] !in copied && index[s] < |stored| && hash[s] == stored[index[s]] >= 2
              && forall copied': map<int, nat> ::
                   copied'.Keys == copied.Keys + {index[s]} ==> CopiedBelow(copied', loc, s + 1)
  {
    forall i | i in copied.Keys ensures i in loc.Keys {
      assert i in copied;
    }
    SubsetSize(copied.Keys, loc.Keys);
    if index[s] >= 0 {
      assert EntryPlaced(hash, index, stored, loc, index[s]);
    }
    forall i | i in loc && loc[i] == s ensures index[s] == i {
      assert EntryPlaced(hash, index, stored, loc, i);
    }
    forall copied': map<int, nat> | index[s] >= 0 && copied'.Keys == copied.Keys + {index[s]}
      ensures CopiedBelow(copied', loc, s + 1)
    {
      forall i ensures i in copied' <==> i in loc && loc[i] < s + 1 {
        assert i in copied' <==> i in copied'.Keys;
      }
    }
  }

  lemma CopiedAll(hash: seq<nat>, index: seq<int>, stored: seq<nat>, loc: map<int, nat>, copied: map<int, nat>)
    requires Placed(hash, index, stored, loc)
    requires CopiedBelow(copied, loc, |hash|)
    ensures copied.Keys == loc.Keys
  {
    forall i | i in loc ensures i in copied {
      assert EntryPlaced(hash, index, stored, loc, i);
    }
    assert forall i :: i in copied.Keys <==> i in loc.Keys;
  }
}
