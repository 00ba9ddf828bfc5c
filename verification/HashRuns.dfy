/** Whole runs of the hash map against the finite map it stands for. */
module HashRuns {
  import opened HashMaps

  datatype Op<K, V> = Put(key: K, value: V) | Get(key: K) | Delete(key: K)

  datatype Reply<V> = Stored | Found(value: V) | NotFound | Deleted(was: bool)

  /** The finite map after one operation, and what the caller is told. */
  function StepMap<K(==), V>(m: map<K, V>, op: Op<K, V>): (map<K, V>, Reply<V>) {
    match op
    case Put(k, v) => (m[k := v], Stored)
    case Get(k) => (m, if k in m then Found(m[k]) else NotFound)
    case Delete(k) => (m - {k}, Deleted(k in m))
  }

  function MapAfter<K(==), V>(ops: seq<Op<K, V>>): map<K, V> {
    if ops == [] then map[] else StepMap(MapAfter(ops[..|ops| - 1]), ops[|ops| - 1]).0
  }

  function Replies<K(==), V>(ops: seq<Op<K, V>>): seq<Reply<V>> {
    if ops == [] then []
    else Replies(ops[..|ops| - 1]) + [StepMap(MapAfter(ops[..|ops| - 1]), ops[|ops| - 1]).1]
  }

  /** Puts and deletes; lookups never rebuild the index. */
  function Updates<K, V>(ops: seq<Op<K, V>>): nat {
    if ops == [] then 0
    else Updates(ops[..|ops| - 1]) + (if ops[|ops| - 1].Get? then 0 else 1)
  }

  lemma KeysByIndex<K, V>(entries: seq<(K, V)>, key: K)
    ensures key in Keys(entries) <==> IndexOf(entries, key) >= 0
  {
    var i := IndexOf(entries, key);
    if i >= 0 {
      assert entries[i].0 in Keys(entries);
    }
  }

  /** Looking up by index in the dense array is looking up in the map. */
  lemma GetRefines<K, V>(entries: seq<(K, V)>, key: K)
    ensures IndexOf(entries, key) >= 0 <==> key in ToMap(entries)
    ensures IndexOf(entries, key) >= 0 ==> entries[IndexOf(entries, key)].1 == ToMap(entries)[key]
  {
    KeysByIndex(entries, key);
  }

  lemma EmptyRefines<K, V>()
    ensures DistinctKeys<K, V>([]) && ToMap<K, V>([]) == map[]
  {
  }

  lemma PutRefines<K, V>(entries: seq<(K, V)>, key: K, value: V)
    requires DistinctKeys(entries)
    ensures DistinctKeys(PutEntry(entries, key, value))
    ensures ToMap(PutEntry(entries, key, value)) == ToMap(entries)[key := value]
  {
    hide ToMap, DistinctKeys, PutEntry;
    PutKeeps(entries, key, value, key);
    var expected, after := ToMap(entries)[key := value], ToMap(PutEntry(entries, key, value));
    forall k | k in after ensures k in expected && after[k] == expected[k] {
      PutKeeps(entries, key, value, k);
    }
    forall k | k in expected.Keys ensures k in after.Keys {
      PutKeeps(entries, key, value, k);
    }
  }

  /** One key across a put: only the put key gets a new value. */
  lemma PutKeeps<K, V>(entries: seq<(K, V)>, key: K, value: V, k: K)
    requires DistinctKeys(entries)
    ensures DistinctKeys(PutEntry(entries, key, value))
    ensures var before, after := ToMap(entries), ToMap(PutEntry(entries, key, value));
            && (k in after <==> k in before || k == key)
            && (k in after ==> after[k] == if k == key then value else before[k])
  {
    var after := PutEntry(entries, key, value);
    var i, j := IndexOf(entries, key), IndexOf(entries, k);
    KeysByIndex(entries, k);
    KeysByIndex(after, k);
    if k == key {
      IndexIsUnique(after, key, if i >= 0 then i else |entries|);
    } else {
      IndexIsUnique(after, k, j);
    }
  }

  /** Where SwapRemove puts the entry that was at j. */
  function AfterSwap(j: nat, i: nat, n: nat): nat {
    if j == n - 1 then i else j
  }

  lemma DeleteRefines<K, V>(entries: seq<(K, V)>, key: K)
    requires DistinctKeys(entries)
    ensures DistinctKeys(DeleteEntry(entries, key))
    ensures ToMap(DeleteEntry(entries, key)) == ToMap(entries) - {key}
  {
    var i := IndexOf(entries, key);
    KeysByIndex(entries, key);
    if i >= 0 {
      SwapRemoveDistinct(entries, i);
      var after := DeleteEntry(entries, key);
      forall k ensures k in Keys(after) <==> k in Keys(entries) && k != key {
        DeleteKeeps(entries, i, key, k);
      }
      forall k | k in Keys(after)
        ensures after[IndexOf(after, k)].1 == entries[IndexOf(entries, k)].1
      {
        DeleteKeeps(entries, i, key, k);
      }
      assert ToMap(after).Keys == ToMap(entries).Keys - {key};
    }
  }

  /** One key across a swap-delete: it survives, with its value, unless it is the deleted one. */
  lemma DeleteKeeps<K, V>(entries: seq<(K, V)>, i: nat, key: K, k: K)
    requires DistinctKeys(entries) && i < |entries| && entries[i].0 == key
    ensures var after := SwapRemove(entries, i);
            && (k in Keys(after) <==> k in Keys(entries) && k != key)
            && IndexOf(after, k) < |entries|
            && (k in Keys(after) ==>
                  IndexOf(after, k) >= 0 && IndexOf(entries, k) >= 0
                  && after[IndexOf(after, k)].1 == entries[IndexOf(entries, k)].1)
  {
    var after := SwapRemove(entries, i);
    SwapRemoveDistinct(entries, i);
    KeysByIndex(entries, k);
    KeysByIndex(after, k);
    var j := IndexOf(entries, k);
    if j >= 0 && k != key {
      var j' := AfterSwap(j, i, |entries|);
      assert after[j'] == entries[j];
      IndexIsUnique(after, k, j');
    } else if k == key {
      forall x | 0 <= x < |after| ensures after[x].0 != key {
        assert after[x] == if x == i then entries[|entries| - 1] else entries[x];
      }
    } else {
      forall x | 0 <= x < |after| ensures after[x].0 != k {
        assert after[x] == if x == i then entries[|entries| - 1] else entries[x];
      }
    }
  }

  /**
   * Any run from an empty map, with any hash function: the replies are those of
   * the finite map, the entries are its contents, and all index rebuilds
   * together clear and scan at most 23 slots per put or delete.
   */
  method Run<K(==), V>(ops: seq<Op<K, V>>, hashOf: (K, nat) -> nat, seed: nat)
    returns (replies: seq<Reply<V>>, entries: seq<(K, V)>, ghost work: nat)
    ensures replies == Replies(ops)
    ensures DistinctKeys(entries) && ToMap(entries) == MapAfter(ops)
    ensures work <= CHARGE_PER_OPERATION * Updates(ops)
  {
    hide ToMap, DistinctKeys, Potential, WithinThresholds, StepMap;
    var h := new HashMap<K, V>(hashOf, seed);
    EmptyRefines<K, V>();
    replies := [];
    var n := 0;
    while n < |ops|
      invariant 0 <= n <= |ops|
      invariant fresh(h) && h.Valid()
      invariant h.table != null ==> fresh(h.table) && fresh(h.table.hash) && fresh(h.table.index)
      invariant replies == Replies(ops[..n])
      invariant ToMap(h.entries) == MapAfter(ops[..n])
      invariant h.Charge() <= CHARGE_PER_OPERATION * Updates(ops[..n])
    {
      assert ops[..n + 1][..n] == ops[..n];
      var reply := Perform(h, ops[n]);
      replies := replies + [reply];
      n := n + 1;
    }
    assert ops[..n] == ops;
    entries, work := h.entries, h.work;
  }

  method Perform<K(==), V>(h: HashMap<K, V>, op: Op<K, V>) returns (reply: Reply<V>)
    requires h.Valid()
    modifies h, h.Footprint()
    ensures h.Valid()
    ensures h.table != null && h.table != old(h.table) ==>
              fresh(h.table) && fresh(h.table.hash) && fresh(h.table.index)
    ensures (ToMap(h.entries), reply) == StepMap(old(ToMap(h.entries)), op)
    ensures h.Charge() <= old(h.Charge()) + (if op.Get? then 0 else CHARGE_PER_OPERATION)
  {
    match op
    case Put(k, v) =>
      PutRefines(h.entries, k, v);
      h.Put(k, v);
      reply := Stored;
    case Get(k) =>
      GetRefines(h.entries, k);
      var i := h.GetIndex(k);
      reply := if i >= 0 then Found(h.entries[i].1) else NotFound;
    case Delete(k) =>
      DeleteRefines(h.entries, k);
      GetRefines(h.entries, k);
      var was := h.Delete(k);
      reply := Deleted(was);
  }
}
