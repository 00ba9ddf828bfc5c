/** The stb_ds hash map with binary keys: a dense entry array beside a hash index. */
module HashMaps {
  import opened Powers
  import opened Probe
  import opened HashPlacement
  import opened HashIndexes

  /** Stored hashes avoid 0 and 1, which mark empty and deleted slots. */
  function StoredHash<K>(hashOf: (K, nat) -> nat, seed: nat, key: K): (h: nat)
    ensures h >= 2
  {
    var h := hashOf(key, seed);
    if h < 2 then h + 2 else h
  }

  ghost function StoredHashes<K, V>(hashOf: (K, nat) -> nat, seed: nat, entries: seq<(K, V)>): seq<nat> {
    seq(|entries|, i requires 0 <= i < |entries| => StoredHash(hashOf, seed, entries[i].0))
  }

  lemma StoredOfAppend<K, V>(hashOf: (K, nat) -> nat, seed: nat, entries: seq<(K, V)>, entry: (K, V))
    ensures StoredHashes(hashOf, seed, entries + [entry]) ==
            StoredHashes(hashOf, seed, entries) + [StoredHash(hashOf, seed, entry.0)]
  {
  }

  lemma StoredOfUpdate<K, V>(hashOf: (K, nat) -> nat, seed: nat, entries: seq<(K, V)>, i: nat, entry: (K, V))
    requires i < |entries|
    ensures StoredHashes(hashOf, seed, entries[i := entry]) ==
            StoredHashes(hashOf, seed, entries)[i := StoredHash(hashOf, seed, entry.0)]
  {
  }

  lemma StoredOfPrefix<K, V>(hashOf: (K, nat) -> nat, seed: nat, entries: seq<(K, V)>, n: nat)
    requires n <= |entries|
    ensures StoredHashes(hashOf, seed, entries[..n]) == StoredHashes(hashOf, seed, entries)[..n]
  {
  }

  ghost predicate DistinctKeys<K, V>(entries: seq<(K, V)>) {
    forall i, j :: 0 <= i < j < |entries| ==> entries[i].0 != entries[j].0
  }

  // ---- what the operations do to the dense array and to the finite map ----

  /** The position of a key in the dense array, or -1. */
  function IndexOf<K(==), V>(entries: seq<(K, V)>, key: K): (i: int)
    ensures -1 <= i < |entries|
    ensures i >= 0 ==> entries[i].0 == key
    ensures i == -1 ==> forall j :: 0 <= j < |entries| ==> entries[j].0 != key
  {
    if entries == [] then -1
    else if entries[|entries| - 1].0 == key then |entries| - 1
    else IndexOf(entries[..|entries| - 1], key)
  }

  function PutEntry<K(==), V>(entries: seq<(K, V)>, key: K, value: V): seq<(K, V)> {
    var i := IndexOf(entries, key);
    if i >= 0 then entries[i := (key, value)] else entries + [(key, value)]
  }

  function SwapRemove<E>(entries: seq<E>, i: nat): seq<E>
    requires i < |entries|
  {
    entries[i := entries[|entries| - 1]][..|entries| - 1]
  }

  function DeleteEntry<K(==), V>(entries: seq<(K, V)>, key: K): seq<(K, V)> {
    var i := IndexOf(entries, key);
    if i >= 0 then SwapRemove(entries, i) else entries
  }

  ghost function ToMap<K, V>(entries: seq<(K, V)>): map<K, V> {
    map key | key in Keys(entries) :: entries[IndexOf(entries, key)].1
  }

  ghost function Keys<K, V>(entries: seq<(K, V)>): set<K> {
    set i | 0 <= i < |entries| :: entries[i].0
  }

  // ---- scanning for a key ----

  /** Look t of the probe passed a slot that is neither empty nor the key's. */
  ghost predicate Missed<K, V>(hash: seq<nat>, index: seq<int>, entries: seq<(K, V)>, h: nat, key: K, t: nat)
    requires IsSlotCount(|hash|) && |index| == |hash|
  {
    SlotInRange(h, |hash|, t);
    var s := Slot(h, |hash|, t);
    && hash[s] != HASH_EMPTY
    && (hash[s] == h ==> 0 <= index[s] < |entries| && entries[index[s]].0 != key)
  }

  ghost predicate MissedBefore<K, V>(hash: seq<nat>, index: seq<int>, entries: seq<(K, V)>, h: nat, key: K, t: nat)
    requires IsSlotCount(|hash|) && |index| == |hash|
  {
    forall u :: 0 <= u < t ==> Missed(hash, index, entries, h, key, u)
  }

  /** Hitting an empty slot after only misses proves that no placed entry has the key. */
  lemma AbsentAtEmpty<K, V>(hash: seq<nat>, index: seq<int>, stored: seq<nat>, loc: map<int, nat>,
                            entries: seq<(K, V)>, h: nat, key: K, t: nat, i: int)
    requires Placed(hash, index, stored, loc) && |stored| == |entries|
    requires MissedBefore(hash, index, entries, h, key, t)
    requires !Occupied(hash, h, t)
    requires i in loc
    ensures 0 <= i < |entries|
    ensures stored[i] == h ==> entries[i].0 != key
  {
    assert EntryPlaced(hash, index, stored, loc, i);
    if stored[i] == h {
      var u: nat :| ReachedAt(hash, h, loc[i], u);
      if u < t {
        assert Missed(hash, index, entries, h, key, u);
      }
    }
  }

  /** What one look at slot z of a bucket scan can find. */
  lemma LookOutcome<K, V>(hash: seq<nat>, index: seq<int>, stored: seq<nat>, loc: map<int, nat>,
                          entries: seq<(K, V)>, h: nat, key: K, k: nat, from: nat, to: nat, j: nat, z: nat)
    requires Placed(hash, index, stored, loc) && |stored| == |entries| && h >= 2
    requires forall i :: 0 <= i < |entries| && entries[i].0 == key ==> stored[i] == h
    requires ScanRange(Home(h, |hash|, k), from, to, j) && from <= z < to
    requires MissedBefore(hash, index, entries, h, key, BUCKET_LENGTH * k + j + z - from)
    ensures var s := Home(h, |hash|, k) / BUCKET_LENGTH * BUCKET_LENGTH + z;
            && s < |hash|
            && Reachable(hash, h, s)
            && (hash[s] == h ==> 0 <= index[s] < |entries| && index[s] in loc && loc[index[s]] == s)
            && (hash[s] == HASH_EMPTY ==> KeyAbsent(entries, loc, key))
            && (hash[s] != HASH_EMPTY && (hash[s] == h ==> entries[index[s]].0 != key) ==>
                  MissedBefore(hash, index, entries, h, key, BUCKET_LENGTH * k + j + z - from + 1))
  {
    var s := Home(h, |hash|, k) / BUCKET_LENGTH * BUCKET_LENGTH + z;
    var t := BUCKET_LENGTH * k + j + z - from;
    LookAt(h, |hash|, k, from, to, j, z);
    ReachedAfterMisses(hash, index, entries, h, key, t);
    if hash[s] == h {
      assert EntryPlaced(hash, index, stored, loc, index[s]);
    } else if hash[s] == HASH_EMPTY {
      forall i | i in loc ensures 0 <= i < |entries| && entries[i].0 != key {
        AbsentAtEmpty(hash, index, stored, loc, entries, h, key, t, i);
      }
    }
    if hash[s] != HASH_EMPTY && (hash[s] == h ==> entries[index[s]].0 != key) {
      assert Missed(hash, index, entries, h, key, t);
    }
  }

  /** No entry placed by the index has the key. */
  ghost predicate KeyAbsent<K, V>(entries: seq<(K, V)>, loc: map<int, nat>, key: K) {
    forall i :: i in loc ==> 0 <= i < |entries| && entries[i].0 != key
  }

  lemma MissedAreOccupied<K, V>(hash: seq<nat>, index: seq<int>, entries: seq<(K, V)>, h: nat, key: K, t: nat)
    requires IsSlotCount(|hash|) && |index| == |hash|
    requires MissedBefore(hash, index, entries, h, key, t)
    ensures NoEmptyBefore(hash, h, t)
  {
    forall u | 0 <= u < t ensures Occupied(hash, h, u) {
      assert Missed(hash, index, entries, h, key, u);
    }
  }

  datatype Look = Continue | Match | Empty

  class HashMap<K(==), V> {
    const hashOf: (K, nat) -> nat
    const seed: nat
    var entries: seq<(K, V)>
    var table: HashIndex?
    /** Slots cleared and scanned by all index rebuilds so far. */
    ghost var work: nat

    constructor (hashOf: (K, nat) -> nat, seed: nat)
      ensures Valid() && entries == [] && table == null && work == 0
      ensures this.hashOf == hashOf && this.seed == seed
    {
      this.hashOf, this.seed := hashOf, seed;
      entries, table, work := [], null, 0;
    }

    ghost function Footprint(): set<object>
      reads this
    {
      if table == null then {} else {table, table.hash, table.index}
    }

    ghost function Stored(): seq<nat>
      reads this
    {
      StoredHashes(hashOf, seed, entries)
    }

    /** The index places the dense entries except those missing from `loc`, and a probe can end. */
    ghost predicate Searchable()
      reads this, Footprint()
    {
      && table != null
      && table.seed == seed
      && table.Ok(Stored())
      && table.HasRoom()
    }

    ghost predicate Valid()
      reads this, Footprint()
    {
      && DistinctKeys(entries)
      && (table == null ==> entries == [])
      && (table != null ==>
            && Searchable()
            && (forall i :: i in table.loc <==> 0 <= i < |entries|)
            && |table.loc| == |entries| == table.usedCount
            && WithinThresholds(table.slotCount, table.usedCount, table.tombstoneCount))
    }

    /** stbds_hm_find_slot: also used in the middle of a deletion. */
    method FindSlot(key: K) returns (slot: int)
      requires Searchable()
      ensures -1 <= slot < table.slotCount
      ensures slot == -1 ==> KeyAbsent(entries, table.loc, key)
      ensures slot >= 0 ==>
                && table.index[slot] in table.loc && table.loc[table.index[slot]] == slot
                && 0 <= table.index[slot] < |entries| && entries[table.index[slot]].0 == key
    {
      var h := StoredHash(hashOf, table.seed, key);
      var pos, step := h % table.slotCount, BUCKET_LENGTH;
      ghost var k := 0;
      while true
        invariant k >= 0 && BUCKET_LENGTH * k < table.slotCount
        invariant pos == Home(h, table.slotCount, k) && step == BUCKET_LENGTH * (k + 1)
        invariant MissedBefore(table.hash[..], table.index[..], entries, h, key, BUCKET_LENGTH * k)
        decreases table.slotCount - BUCKET_LENGTH * k
      {
        var limit := pos % BUCKET_LENGTH;
        var look, s := FindInBucket(key, h, pos, limit, BUCKET_LENGTH, k, 0);
        if look == Match { return s; }
        if look == Empty { return -1; }
        look, s := FindInBucket(key, h, pos, 0, limit, k, BUCKET_LENGTH - limit);
        if look == Match { return s; }
        if look == Empty { return -1; }
        MissedAreOccupied(table.hash[..], table.index[..], entries, h, key, BUCKET_LENGTH * (k + 1));
        NextRound(table.hash[..], h, k);
        pos := (pos + step) % table.slotCount;
        step := step + BUCKET_LENGTH;
        k := k + 1;
      }
    }

    /** One bucket scan of the lookup: slots from..to of the bucket at pos. */
    method FindInBucket(key: K, h: nat, pos: nat, from: nat, to: nat, ghost k: nat, ghost j: nat)
      returns (look: Look, s: nat)
      requires Searchable() && h == StoredHash(hashOf, seed, key)
      requires pos == Home(h, table.slotCount, k) && ScanRange(pos, from, to, j)
      requires MissedBefore(table.hash[..], table.index[..], entries, h, key, BUCKET_LENGTH * k + j)
      ensures look == Continue ==>
                MissedBefore(table.hash[..], table.index[..], entries, h, key, BUCKET_LENGTH * k + j + to - from)
      ensures look == Match ==>
                && s < table.slotCount
                && table.index[s] in table.loc && table.loc[table.index[s]] == s
                && 0 <= table.index[s] < |entries| && entries[table.index[s]].0 == key
      ensures look == Empty ==> KeyAbsent(entries, table.loc, key)
    {
      s := 0;
      var z := from;
      ghost var hash, index, stored, loc := table.hash[..], table.index[..], Stored(), table.loc;
      while z < to
        invariant from <= z <= to
        invariant MissedBefore(hash, index, entries, h, key, BUCKET_LENGTH * k + j + z - from)
      {
        s := pos / BUCKET_LENGTH * BUCKET_LENGTH + z;
        LookOutcome(hash, index, stored, loc, entries, h, key, k, from, to, j, z);
        assert hash[s] == table.hash[s] && index[s] == table.index[s];
        if table.hash[s] == h {
          if entries[table.index[s]].0 == key {
            return Match, s;
          }
        } else if table.hash[s] == HASH_EMPTY {
          return Empty, s;
        }
        z := z + 1;
      }
      return Continue, 0;
    }

    /** stbds_hmget_key: the index of the key in the dense array, or -1. */
    method GetIndex(key: K) returns (i: int)
      requires Valid()
      ensures i == IndexOf(entries, key)
    {
      if table == null {
        return -1;
      }
      var slot := FindSlot(key);
      if slot < 0 {
        i := -1;
      } else {
        i := table.index[slot];
      }
      IndexIsUnique(entries, key, i);
    }

    /** The probe of stbds_hmput_key: the key's index, or the slot a new entry takes. */
    method ProbeForPut(key: K) returns (found: int, pos: nat)
      requires Searchable()
      ensures -1 <= found < |entries|
      ensures found >= 0 ==> entries[found].0 == key
      ensures found == -1 ==>
                && KeyAbsent(entries, table.loc, key)
                && pos < table.slotCount && table.hash[pos] < 2
                && Reachable(table.hash[..], StoredHash(hashOf, seed, key), pos)
                && FirstFree(table.hash[..], StoredHash(hashOf, seed, key), pos)
    {
      var h := StoredHash(hashOf, table.seed, key);
      var step, tombstone := BUCKET_LENGTH, -1;
      pos := h % table.slotCount;
      ghost var k := 0;
      while true
        invariant k >= 0 && BUCKET_LENGTH * k < table.slotCount
        invariant pos == Home(h, table.slotCount, k) && step == BUCKET_LENGTH * (k + 1)
        invariant MissedBefore(table.hash[..], table.index[..], entries, h, key, BUCKET_LENGTH * k)
        invariant TombstoneOk(table.hash[..], h, tombstone, BUCKET_LENGTH * k)
        decreases table.slotCount - BUCKET_LENGTH * k
      {
        var limit := pos % BUCKET_LENGTH;
        var look, s;
        look, s, tombstone := PutInBucket(key, h, pos, limit, BUCKET_LENGTH, tombstone, k, 0);
        if look == Match { return table.index[s], s; }
        if look == Empty { return -1, if tombstone >= 0 then tombstone else s; }
        look, s, tombstone := PutInBucket(key, h, pos, 0, limit, tombstone, k, BUCKET_LENGTH - limit);
        if look == Match { return table.index[s], s; }
        if look == Empty { return -1, if tombstone >= 0 then tombstone else s; }
        MissedAreOccupied(table.hash[..], table.index[..], entries, h, key, BUCKET_LENGTH * (k + 1));
        NextRound(table.hash[..], h, k);
        pos := (pos + step) % table.slotCount;
        step := step + BUCKET_LENGTH;
        k := k + 1;
      }
    }

    /** One bucket scan of the put, which also remembers the first tombstone. */
    method PutInBucket(key: K, h: nat, pos: nat, from: nat, to: nat, tombstone0: int, ghost k: nat, ghost j: nat)
      returns (look: Look, s: nat, tombstone: int)
      requires Searchable() && h == StoredHash(hashOf, seed, key)
      requires pos == Home(h, table.slotCount, k) && ScanRange(pos, from, to, j)
      requires MissedBefore(table.hash[..], table.index[..], entries, h, key, BUCKET_LENGTH * k + j)
      requires TombstoneOk(table.hash[..], h, tombstone0, BUCKET_LENGTH * k + j)
      ensures look == Continue ==>
                MissedBefore(table.hash[..], table.index[..], entries, h, key, BUCKET_LENGTH * k + j + to - from)
      ensures look != Continue ==> s < table.slotCount
      ensures look == Match ==>
                0 <= table.index[s] < |entries| && entries[table.index[s]].0 == key
      ensures look == Empty ==>
                && KeyAbsent(entries, table.loc, key)
                && table.hash[s] == HASH_EMPTY && Reachable(table.hash[..], h, s)
                && ChosenOk(table.hash[..], h, if tombstone >= 0 then tombstone else s)
      ensures look == Continue ==> TombstoneOk(table.hash[..], h, tombstone, BUCKET_LENGTH * k + j + to - from)
    {
      hide TombstoneOk, ChosenOk, Reachable, MissedBefore, KeyAbsent;
      s, tombstone := 0, tombstone0;
      var z := from;
      ghost var hash, index, stored, loc := table.hash[..], table.index[..], Stored(), table.loc;
      while z < to
        invariant from <= z <= to
        invariant MissedBefore(hash, index, entries, h, key, BUCKET_LENGTH * k + j + z - from)
        invariant TombstoneOk(hash, h, tombstone, BUCKET_LENGTH * k + j + z - from)
      {
        s := pos / BUCKET_LENGTH * BUCKET_LENGTH + z;
        LookOutcome(hash, index, stored, loc, entries, h, key, k, from, to, j, z);
        LookAt(h, table.slotCount, k, from, to, j, z);
        TombstoneStep(hash, index, stored, loc, h, tombstone, BUCKET_LENGTH * k + j + z - from);
        assert hash[s] == table.hash[s] && index[s] == table.index[s];
        if table.hash[s] == h {
          if entries[table.index[s]].0 == key {
            return Match, s, tombstone;
          }
        } else if table.hash[s] == HASH_EMPTY {
          return Empty, s, tombstone;
        } else if tombstone < 0 {
          if table.index[s] == INDEX_DELETED {
            tombstone := s;
          }
        }
        z := z + 1;
      }
      return Continue, 0, tombstone;
    }

    /** Replaces the index by a fresh one of n slots that holds the same entries. */
    method Rebuild(n: nat)
      requires table != null && table.seed == seed && table.Ok(Stored())
      requires IsSlotCount(n) && |table.loc| == table.usedCount < n
      modifies this`table, this`work
      ensures table != null && fresh(table) && fresh(table.hash) && fresh(table.index)
      ensures Searchable() && table.slotCount == n && table.tombstoneCount == 0
      ensures table.loc.Keys == old(table.loc.Keys)
      ensures table.usedCount == |table.loc| == old(table.usedCount)
      ensures work == old(work) + n + old(table.slotCount)
    {
      ghost var oldLoc := table.loc;
      var nt;
      ghost var cost;
      nt, cost := MakeHashIndex(n, table, seed, Stored());
      assert nt.loc.Keys == oldLoc.Keys;
      assert |nt.loc| == |nt.loc.Keys| && |oldLoc| == |oldLoc.Keys|;
      table := nt;
      work := work + cost;
    }

    /** Rebuild work done, plus what the potential has saved up for the next rebuild. */
    ghost function Charge(): nat
      reads this, Footprint()
    {
      work + if table == null then 0
             else Potential(table.slotCount, table.usedCount, table.tombstoneCount)
    }

    /** The growth test at the start of stbds_hmput_key. */
    method GrowIfFull()
      requires Valid()
      modifies this`table, this`work
      ensures Valid() && table != null && table.usedCount < UsedThreshold(table.slotCount)
      ensures table != old(table) ==> fresh(table) && fresh(table.hash) && fresh(table.index)
      ensures old(table) == null ==>
                work == old(work) + BUCKET_LENGTH && table.slotCount == BUCKET_LENGTH && table.tombstoneCount == 0
      ensures old(table) != null ==> Charge() <= old(Charge())
    {
      if table == null {
        var nt;
        ghost var cost;
        FirstSlotCount();
        nt, cost := MakeHashIndex(BUCKET_LENGTH, null, seed, Stored());
        table := nt;
        work := work + cost;
      } else if table.usedCount >= UsedThreshold(table.slotCount) {
        GrowStep(table.slotCount, table.usedCount, table.tombstoneCount);
        ghost var oldLoc := table.loc;
        Rebuild(table.slotCount * 2);
        assert forall i :: i in table.loc <==> i in oldLoc by {
          assert table.loc.Keys == oldLoc.Keys;
        }
      }
    }

    /** hmput: stbds_hmput_key, then the value is stored at the returned index. */
    method Put(key: K, value: V)
      requires Valid()
      modifies this, Footprint()
      ensures Valid() && table != null
      ensures table != old(table) ==> fresh(table) && fresh(table.hash) && fresh(table.index)
      ensures entries == PutEntry(old(entries), key, value)
      ensures Charge() <= old(Charge()) + CHARGE_PER_OPERATION
    {
      hide Placed, StoredHashes, Reachable, WithinThresholds;
      GrowIfFull();
      ghost var charge := Charge();
      PutWithRoom(key, value);
      assert Charge() <= charge + INSERT_CHARGE;
    }

    method PutWithRoom(key: K, value: V)
      requires Valid() && table != null && table.usedCount < UsedThreshold(table.slotCount)
      modifies this`entries, table, table.hash, table.index
      ensures Valid()
      ensures entries == PutEntry(old(entries), key, value)
      ensures Charge() <= old(Charge()) + INSERT_CHARGE
    {
      var found, pos := ProbeForPut(key);
      IndexIsUnique(entries, key, found);
      if found >= 0 {
        ReplaceValue(found, key, value);
      } else {
        AppendEntry(key, value, pos);
      }
    }

    method ReplaceValue(i: nat, key: K, value: V)
      requires Valid() && table != null
      requires i < |entries| && entries[i].0 == key
      modifies this`entries
      ensures Valid()
      ensures entries == old(entries)[i := (key, value)]
      ensures Charge() == old(Charge())
    {
      StoredOfUpdate(hashOf, seed, entries, i, (key, value));
      ghost var stored := Stored();
      entries := entries[i := (key, value)];
      assert Stored() == stored;
    }

    method AppendEntry(key: K, value: V, pos: nat)
      requires Valid() && table != null && table.usedCount < UsedThreshold(table.slotCount)
      requires KeyAbsent(entries, table.loc, key)
      requires pos < table.slotCount && table.hash[pos] < 2
      requires Reachable(table.hash[..], StoredHash(hashOf, seed, key), pos)
      modifies this`entries, table, table.hash, table.index
      ensures Valid()
      ensures entries == old(entries) + [(key, value)]
      ensures Charge() <= old(Charge()) + INSERT_CHARGE
    {
      hide Placed, Reachable, Potential;
      var i := |entries|;
      ghost var loc := table.loc;
      ghost var u, t := table.usedCount, table.tombstoneCount;
      InsertPotential(table.slotCount, u, t);
      ExtendEntries(key, value);
      table.Occupy(pos, StoredHash(hashOf, table.seed, key), i, Stored());
      table.usedCount := table.usedCount + 1;
      assert table.usedCount == u + 1 && (table.tombstoneCount == t || table.tombstoneCount == t - 1);
      DomainGrows(loc, table.loc, i);
      TableHasRoom(table, Stored());
    }

    /** The dense array grows by one entry that the index does not know yet. */
    method ExtendEntries(key: K, value: V)
      requires Searchable() && DistinctKeys(entries)
      requires forall i :: i in table.loc <==> 0 <= i < |entries|
      requires KeyAbsent(entries, table.loc, key)
      modifies this`entries
      ensures Searchable() && DistinctKeys(entries)
      ensures entries == old(entries) + [(key, value)]
      ensures |Stored()| == |entries| && Stored()[|entries| - 1] == StoredHash(hashOf, seed, key)
    {
      ghost var stored := Stored();
      StoredOfAppend(hashOf, seed, entries, (key, value));
      entries := entries + [(key, value)];
      StoredMayChange(table.hash[..], table.index[..], stored, Stored(), table.loc);
    }

    /** stbds_hmdel_key: swap-delete, with the relocation lookup and the shrink and rebuild tests. */
    method Delete(key: K) returns (deleted: bool)
      requires Valid()
      modifies this, Footprint()
      ensures Valid()
      ensures table != null && table != old(table) ==> fresh(table) && fresh(table.hash) && fresh(table.index)
      ensures deleted == (IndexOf(old(entries), key) >= 0)
      ensures entries == DeleteEntry(old(entries), key)
      ensures Charge() <= old(Charge()) + CHARGE_PER_OPERATION
    {
      if table == null {
        return false;
      }
      var slot := FindSlot(key);
      if slot < 0 {
        IndexIsUnique(entries, key, -1);
        return false;
      }
      IndexIsUnique(entries, key, table.index[slot]);
      DeleteAt(slot);
      return true;
    }

    method DeleteAt(slot: nat)
      requires Valid() && table != null
      requires slot < table.slotCount && 0 <= table.index[slot] < |entries|
      modifies this, table, table.hash, table.index
      ensures Valid() && table != null
      ensures table != old(table) ==> fresh(table) && fresh(table.hash) && fresh(table.index)
      ensures entries == SwapRemove(old(entries), old(table.index[slot]))
      ensures Charge() <= old(Charge()) + CHARGE_PER_OPERATION
    {
      DeletePotential(table.slotCount, table.usedCount, table.tombstoneCount);
      SwapDelete(slot);
      ShrinkOrRebuild();
    }

    /** Everything of the deletion before the threshold tests. */
    method SwapDelete(slot0: nat)
      requires Valid() && table != null
      requires slot0 < table.slotCount && 0 <= table.index[slot0] < |entries|
      modifies this`entries, table, table.hash, table.index
      ensures Searchable() && DistinctKeys(entries)
      ensures entries == SwapRemove(old(entries), old(table.index[slot0]))
      ensures forall i :: i in table.loc <==> 0 <= i < |entries|
      ensures |table.loc| == |entries| == table.usedCount == old(table.usedCount) - 1
      ensures table.tombstoneCount == old(table.tombstoneCount) + 1
    {
      hide Placed;
      var oldIndex, finalIndex := table.index[slot0], |entries| - 1;
      Unplace(slot0);
      if oldIndex != finalIndex {
        MoveLast(oldIndex, finalIndex);
      }
      assert entries == old(entries)[oldIndex := old(entries)[finalIndex]];
      DropLast();
      SwapRemoveDistinct(old(entries), oldIndex);
    }

    /** The deleted entry's slot becomes a tombstone; the dense array is untouched. */
    method Unplace(slot0: nat)
      requires Valid() && table != null
      requires slot0 < table.slotCount && 0 <= table.index[slot0] < |entries|
      modifies table, table.hash, table.index
      ensures Searchable()
      ensures forall i :: i in table.loc <==> 0 <= i < |entries| && i != old(table.index[slot0])
      ensures |table.loc| == |entries| - 1 == table.usedCount
      ensures table.tombstoneCount == old(table.tombstoneCount) + 1
    {
      var oldIndex := table.index[slot0];
      ghost var loc := table.loc;
      assert table.index[..][slot0] == oldIndex;
      table.Tombstone(slot0, oldIndex, Stored());
      DomainShrinks(loc, table.loc, oldIndex);
    }

    /** The dense array loses its last entry, which the index no longer knows. */
    method DropLast()
      requires Searchable() && |entries| > 0
      requires forall i :: i in table.loc <==> 0 <= i < |entries| - 1
      modifies this`entries
      ensures Searchable()
      ensures entries == old(entries)[..|old(entries)| - 1]
    {
      ghost var stored := Stored();
      StoredOfPrefix(hashOf, seed, entries, |entries| - 1);
      entries := entries[..|entries| - 1];
      StoredMayChange(table.hash[..], table.index[..], stored, Stored(), table.loc);
    }

    /** The last entry takes the place of the deleted one; its slot is found and redirected. */
    method MoveLast(oldIndex: nat, finalIndex: nat)
      requires Searchable() && DistinctKeys(entries)
      requires oldIndex < finalIndex == |entries| - 1
      requires forall i :: i in table.loc <==> 0 <= i < |entries| && i != oldIndex
      modifies this`entries, table`loc, table.index
      ensures Searchable()
      ensures entries == old(entries)[oldIndex := old(entries)[finalIndex]]
      ensures forall i :: i in table.loc <==> 0 <= i < finalIndex
      ensures |table.loc| == old(|table.loc|)
    {
      ghost var stored, loc := Stored(), table.loc;
      StoredOfUpdate(hashOf, seed, entries, oldIndex, entries[finalIndex]);
      entries := entries[oldIndex := entries[finalIndex]];
      StoredMayChange(table.hash[..], table.index[..], stored, Stored(), table.loc);
      var slot := FindSlot(entries[oldIndex].0);
      assert finalIndex in table.loc;
      assert slot >= 0 && table.index[slot] == finalIndex;
      table.Redirect(slot, finalIndex, oldIndex, Stored());
      DomainRenames(loc, table.loc, finalIndex, oldIndex);
    }

    method ShrinkOrRebuild()
      requires Searchable() && DistinctKeys(entries)
      requires forall i :: i in table.loc <==> 0 <= i < |entries|
      requires |table.loc| == |entries| == table.usedCount
      requires table.tombstoneCount > 0
      requires WithinThresholds(table.slotCount, table.usedCount + 1, table.tombstoneCount - 1)
      modifies this`table, this`work
      ensures Valid()
      ensures table != null
      ensures table != old(table) ==> fresh(table) && fresh(table.hash) && fresh(table.index)
      ensures Charge() <= old(Charge())
    {
      ghost var loc := table.loc;
      ghost var n, u, t := table.slotCount, table.usedCount, table.tombstoneCount;
      if table.usedCount < ShrinkThreshold(table.slotCount) && table.slotCount > BUCKET_LENGTH {
        ShrinkStep(n, u, t);
        Rebuild(table.slotCount / 2);
        assert table.loc.Keys == loc.Keys;
      } else if table.tombstoneCount > TombstoneThreshold(table.slotCount) {
        RebuildStep(n, u, t);
        Rebuild(table.slotCount);
        assert table.loc.Keys == loc.Keys;
      }
      assert forall i :: i in table.loc <==> i in loc by {
        assert table.loc.Keys == loc.Keys;
      }
    }
  }

  // ---- the thresholds and the potential ----

  const CHARGE_PER_OPERATION := 23
  const INSERT_CHARGE := 12

  lemma InsertPotential(n: nat, used: nat, tombstones: nat)
    ensures Potential(n, used + 1, tombstones) <= Potential(n, used, tombstones) + INSERT_CHARGE
    ensures tombstones > 0 ==>
              Potential(n, used + 1, tombstones - 1) <= Potential(n, used, tombstones) + INSERT_CHARGE
  {
  }

  lemma DeletePotential(n: nat, used: nat, tombstones: nat)
    ensures used > 0 ==>
              Potential(n, used - 1, tombstones + 1) <= Potential(n, used, tombstones) + CHARGE_PER_OPERATION
  {
  }

  lemma DomainGrows(loc: map<int, nat>, loc': map<int, nat>, i: int)
    requires i in loc' && loc' == loc[i := loc'[i]] && i !in loc
    ensures |loc'| == |loc| + 1
    ensures forall j :: j in loc' <==> j in loc || j == i
  {
    assert loc'.Keys == loc.Keys + {i};
  }

  lemma DomainShrinks(loc: map<int, nat>, loc': map<int, nat>, i: int)
    requires loc' == loc - {i} && i in loc
    ensures |loc'| == |loc| - 1
    ensures forall j :: j in loc' <==> j in loc && j != i
  {
    assert loc'.Keys == loc.Keys - {i};
  }

  lemma DomainRenames(loc: map<int, nat>, loc': map<int, nat>, last: int, i: int)
    requires last in loc && i !in loc && loc' == (loc - {last})[i := loc[last]]
    ensures |loc'| == |loc|
    ensures forall j :: j in loc' <==> (j in loc && j != last) || j == i
  {
    DomainShrinks(loc, loc - {last}, last);
    DomainGrows(loc - {last}, loc', i);
  }

  /** What has been saved for the next grow, shrink or tombstone rebuild. */
  ghost function Potential(n: nat, used: nat, tombstones: nat): nat {
    var grow := if 2 * used > n then 6 * (2 * used - n) else 0;
    var shrink := if n > BUCKET_LENGTH && 8 * used < 3 * n then 12 * (3 * n / 8 - used) else 0;
    grow + shrink + 11 * tombstones
  }

  lemma FirstSlotCount()
    ensures IsSlotCount(BUCKET_LENGTH)
  {
    assert BUCKET_LENGTH == BUCKET_LENGTH * Pow2(0);
  }

  lemma RoomLeft(n: nat, used: nat, tombstones: nat)
    requires IsSlotCount(n) && WithinThresholds(n, used, tombstones)
    ensures used + tombstones < n
  {
    SlotCountIsMultiple(n);
  }

  lemma TableHasRoom(t: HashIndex, stored: seq<nat>)
    requires t.Ok(stored) && t.usedCount == |t.loc|
    requires WithinThresholds(t.slotCount, t.usedCount, t.tombstoneCount)
    ensures t.HasRoom()
  {
    RoomLeft(t.slotCount, t.usedCount, t.tombstoneCount);
  }

  lemma GrowStep(n: nat, used: nat, tombstones: nat)
    requires IsSlotCount(n) && WithinThresholds(n, used, tombstones) && used >= UsedThreshold(n)
    ensures IsSlotCount(2 * n) && WithinThresholds(2 * n, used, 0) && used < UsedThreshold(2 * n)
    ensures 3 * n + Potential(2 * n, used, 0) <= Potential(n, used, tombstones)
  {
    var p: nat :| n == BUCKET_LENGTH * Pow2(p);
    assert 2 * n == BUCKET_LENGTH * Pow2(p + 1);
  }

  lemma ShrinkStep(n: nat, used: nat, tombstones: nat)
    requires IsSlotCount(n) && n > BUCKET_LENGTH && used + 1 == ShrinkThreshold(n)
    ensures IsSlotCount(n / 2) && WithinThresholds(n / 2, used, 0) && used < n / 2
    ensures n / 2 + n + Potential(n / 2, used, 0) <= Potential(n, used, tombstones)
  {
    var p: nat :| n == BUCKET_LENGTH * Pow2(p);
    assert n / 2 == BUCKET_LENGTH * Pow2(p - 1);
  }

  lemma RebuildStep(n: nat, used: nat, tombstones: nat)
    requires IsSlotCount(n) && tombstones > TombstoneThreshold(n)
    ensures 2 * n + Potential(n, used, 0) <= Potential(n, used, tombstones)
  {
    SlotCountIsMultiple(n);
  }

  /** A slot that a new entry may take: the first free one of the key's probe path. */
  ghost predicate ChosenOk(hash: seq<nat>, h: nat, s: int)
    requires IsSlotCount(|hash|)
  {
    0 <= s < |hash| && hash[s] < 2 && Reachable(hash, h, s) && FirstFree(hash, h, s)
  }

  /** After t looks: the first tombstone seen, or else only slots in use have been seen. */
  ghost predicate TombstoneOk(hash: seq<nat>, h: nat, tombstone: int, t: nat)
    requires IsSlotCount(|hash|)
  {
    NoEmptyBefore(hash, h, t) && if tombstone < 0 then TakenBefore(hash, h, t) else ChosenOk(hash, h, tombstone)
  }

  lemma TombstoneStep(hash: seq<nat>, index: seq<int>, stored: seq<nat>, loc: map<int, nat>, h: nat,
                      tombstone: int, t: nat)
    requires Placed(hash, index, stored, loc) && TombstoneOk(hash, h, tombstone, t)
    ensures var s := Slot(h, |hash|, t);
            && s < |hash|
            && (hash[s] != HASH_EMPTY ==>
                  var next := if tombstone < 0 && index[s] == INDEX_DELETED then s else tombstone;
                  TombstoneOk(hash, h, next, t + 1))
            && (hash[s] == HASH_EMPTY ==> ChosenOk(hash, h, if tombstone >= 0 then tombstone else s))
  {
    hide EntryPlaced;
    SlotInRange(h, |hash|, t);
    var s := Slot(h, |hash|, t);
    assert SlotOk(hash[s], index[s]);
    assert ReachedAt(hash, h, s, t);
    if hash[s] != HASH_EMPTY {
      assert Occupied(hash, h, t);
    }
    if hash[s] >= 2 {
      assert Taken(hash, h, t);
    }
  }

  lemma ReachedAfterMisses<K, V>(hash: seq<nat>, index: seq<int>, entries: seq<(K, V)>, h: nat, key: K, t: nat)
    requires IsSlotCount(|hash|) && |index| == |hash|
    requires MissedBefore(hash, index, entries, h, key, t)
    ensures Reachable(hash, h, Slot(h, |hash|, t))
  {
    MissedAreOccupied(hash, index, entries, h, key, t);
    assert ReachedAt(hash, h, Slot(h, |hash|, t), t);
  }

  lemma SwapRemoveDistinct<K, V>(entries: seq<(K, V)>, i: nat)
    requires DistinctKeys(entries) && i < |entries|
    ensures DistinctKeys(SwapRemove(entries, i))
  {
  }

  lemma {:induction false} IndexIsUnique<K, V>(entries: seq<(K, V)>, key: K, i: int)
    requires DistinctKeys(entries)
    requires -1 <= i < |entries|
    requires if i >= 0 then entries[i].0 == key else forall j :: 0 <= j < |entries| ==> entries[j].0 != key
    ensures i == IndexOf(entries, key)
  {
    var j := IndexOf(entries, key);
  }

  ghost predicate WithinThresholds(n: nat, used: nat, tombstones: nat) {
    && ShrinkThreshold(n) <= used <= UsedThreshold(n)
    && tombstones <= TombstoneThreshold(n)
  }
}
