/** The constants of the hash index: when it grows, shrinks and is rebuilt. */
module HashLaws {
  import opened Powers
  import opened Probe
  import opened HashIndexes
  import opened HashMaps

  /** The index grows when three quarters are used, shrinks below a quarter, and is rebuilt above 3/16 tombstones. */
  lemma ThresholdsAre(n: nat)
    requires IsSlotCount(n)
    ensures n >= 16 ==> 4 * UsedThreshold(n) == 3 * n && 16 * TombstoneThreshold(n) == 3 * n
    ensures n >= 16 ==> 4 * ShrinkThreshold(n) == n
    ensures n < 16 ==> n == 8 && UsedThreshold(n) == 6 && TombstoneThreshold(n) == 1 && ShrinkThreshold(n) == 0
  {
    hide UsedThreshold, TombstoneThreshold, ShrinkThreshold;
    var p: nat :| n == BUCKET_LENGTH * Pow2(p);
    if p == 0 {
      OneBucket();
    } else {
      assert Pow2(p) == 2 * Pow2(p - 1);
      Sixteenths(Pow2(p - 1));
    }
  }

  lemma OneBucket()
    ensures UsedThreshold(8) == 6 && TombstoneThreshold(8) == 1 && ShrinkThreshold(8) == 0
  {
  }

  lemma Sixteenths(q: nat)
    requires q >= 1
    ensures UsedThreshold(16 * q) == 12 * q && TombstoneThreshold(16 * q) == 3 * q && ShrinkThreshold(16 * q) == 4 * q
  {
    assert 16 * q / 4 == 4 * q && 16 * q / 8 == 2 * q && 16 * q / 16 == q;
  }

  /** Hashes 0 and 1 are moved out of the way; all others are stored as they are. */
  lemma StoredHashIs<K>(hashOf: (K, nat) -> nat, seed: nat, key: K)
    ensures StoredHash(hashOf, seed, key) == if hashOf(key, seed) < 2 then hashOf(key, seed) + 2 else hashOf(key, seed)
  {
  }
}
