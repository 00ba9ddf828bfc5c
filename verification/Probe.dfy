/**
 * The quadratic probe sequence of the stb_ds hash index: buckets of eight
 * slots, a start inside the home bucket that wraps around it, and bucket
 * offsets that grow by 8, 16, 24, ... modulo the slot count.
 */
module Probe {
  import opened Powers

  const BUCKET_LENGTH := 8

  /** Slot counts the table can have: powers of two, at least one bucket. */
  ghost predicate IsSlotCount(n: nat) {
    exists p: nat :: n == BUCKET_LENGTH * Pow2(p)
  }

  /** Triangular numbers: the bucket offset after k probe rounds. */
  ghost function Tri(k: nat): nat {
    if k == 0 then 0 else Tri(k - 1) + k
  }

  /** The value of `pos` when probe round k starts. */
  ghost function Home(hash: nat, n: nat, k: nat): nat
    requires n > 0
  {
    (hash + BUCKET_LENGTH * Tri(k)) % n
  }

  /** The t-th slot that the two bucket scans of the probe loops look at. */
  ghost function Slot(hash: nat, n: nat, t: nat): nat
    requires n > 0
  {
    InBucket(Home(hash, n, t / BUCKET_LENGTH), t % BUCKET_LENGTH)
  }

  /** The j-th slot looked at in the bucket of pos: from pos, wrapping round. */
  ghost function InBucket(pos: nat, j: nat): nat {
    pos / BUCKET_LENGTH * BUCKET_LENGTH + (pos % BUCKET_LENGTH + j) % BUCKET_LENGTH
  }

  lemma InBucketRange(pos: nat, m: nat, j: nat)
    requires pos < BUCKET_LENGTH * m
    ensures InBucket(pos, j) < BUCKET_LENGTH * m
  {
    var b := pos / 8;
    assert b < m;
  }

  lemma SlotInRange(hash: nat, n: nat, t: nat)
    requires IsSlotCount(n)
    ensures Slot(hash, n, t) < n
  {
    var p: nat :| n == BUCKET_LENGTH * Pow2(p);
    InBucketRange(Home(hash, n, t / BUCKET_LENGTH), Pow2(p), t % BUCKET_LENGTH);
  }

  lemma SlotCountIsMultiple(n: nat)
    requires IsSlotCount(n)
    ensures n % BUCKET_LENGTH == 0 && n >= BUCKET_LENGTH
  {
  }

  /** Where the j-th look of round k lands, as the bucket scans compute it. */
  lemma SlotAt(hash: nat, n: nat, k: nat, j: nat)
    requires IsSlotCount(n)
    requires j < BUCKET_LENGTH
    ensures Slot(hash, n, BUCKET_LENGTH * k + j) == InBucket(Home(hash, n, k), j) < n
  {
    var t := BUCKET_LENGTH * k + j;
    SlotInRange(hash, n, t);
    LookNumber(k, j);
  }

  lemma LookNumber(k: nat, j: nat)
    requires j < BUCKET_LENGTH
    ensures (BUCKET_LENGTH * k + j) / BUCKET_LENGTH == k
    ensures (BUCKET_LENGTH * k + j) % BUCKET_LENGTH == j
  {
  }

  /** `pos += step; pos &= slot_count - 1` moves from one round to the next. */
  lemma NextHome(hash: nat, n: nat, k: nat)
    requires n > 0
    ensures (Home(hash, n, k) + BUCKET_LENGTH * (k + 1)) % n == Home(hash, n, k + 1)
  {
    var a := hash + BUCKET_LENGTH * Tri(k);
    ModAdd(a, BUCKET_LENGTH * (k + 1), n);
  }

  lemma {:induction false} TriDouble(k: nat)
    ensures 2 * Tri(k) == k * (k + 1)
  {
    if k > 0 {
      TriDouble(k - 1);
    }
  }

  lemma SameResidue(x: int, y: int, m: int)
    requires m > 0 && x % m == y % m
    ensures y - x == (y / m - x / m) * m
  {
    assert x == (x / m) * m + x % m;
    assert y == (y / m) * m + y % m;
    assert (y / m - x / m) * m == (y / m) * m - (x / m) * m;
  }

  lemma DifferenceOfProducts(i: int, j: int)
    ensures (j - i) * (i + j + 1) == j * (j + 1) - i * (i + 1)
  {
  }

  /** No two rounds below m = 2^p start in the same bucket. */
  lemma OffsetsDistinct(a: nat, p: nat, i: nat, j: nat)
    requires i < j < Pow2(p)
    ensures (a + Tri(i)) % Pow2(p) != (a + Tri(j)) % Pow2(p)
  {
    var m, x, y := Pow2(p), a + Tri(i), a + Tri(j);
    if x % m == y % m {
      var c := y / m - x / m;
      assert y - x == c * m by { SameResidue(x, y, m); }
      assert 2 * (y - x) == (j - i) * (i + j + 1) by {
        TriDouble(i);
        TriDouble(j);
        DifferenceOfProducts(i, j);
      }
      DoubleMul(c, m);
      FactorTooSmall(j - i, i + j + 1, c, p + 1);
    }
  }

  lemma FactorTooSmall(x: nat, y: nat, c: int, q: nat)
    requires 0 < x < Pow2(q) && 0 < y < Pow2(q)
    requires (x + y) % 2 == 1
    ensures x * y != c * Pow2(q)
  {
    if x * y == c * Pow2(q) {
      if x % 2 == 1 {
        var d := CancelOdd(x, y, c, q);
        NotMultiple(y, d, Pow2(q));
      } else {
        assert y * x == x * y;
        var d := CancelOdd(y, x, c, q);
        NotMultiple(x, d, Pow2(q));
      }
    }
  }

  lemma NotMultiple(x: int, d: int, w: int)
    requires 0 < x < w
    ensures x != d * w
  {
    if d > 0 {
      assert d * w >= w;
    } else {
      assert d * w <= 0;
    }
  }

  lemma BucketOf(x: nat, m: nat)
    requires m > 0
    ensures (x % (8 * m)) / 8 == (x / 8) % m
  {
    var n := 8 * m;
    var q, r := x / n, x % n;
    assert x == q * n + r;
    DoubleMul8(q, m);
    assert x / 8 == q * m + r / 8;
    ModUnique(x / 8, q, r / 8, m);
  }

  lemma DoubleMul8(q: int, m: int)
    ensures q * (8 * m) == 8 * (q * m)
  {
  }

  ghost function Offset(a: nat, m: nat, k: nat): nat
    requires m > 0
  {
    (a + Tri(k)) % m
  }

  lemma RoundForBucket(a: nat, p: nat, b: nat) returns (k: nat)
    requires b < Pow2(p)
    ensures k < Pow2(p) && Offset(a, Pow2(p), k) == b
  {
    var m := Pow2(p);
    var f := (k: nat) => Offset(a, m, k);
    forall i, j | 0 <= i < j < m ensures f(i) != f(j) {
      OffsetsDistinct(a, p, i, j);
    }
    k := Pigeonhole(f, m, b);
  }

  /** Some round below m = n / 8 starts in bucket b. */
  lemma BucketReached(hash: nat, p: nat, b: nat) returns (k: nat)
    requires b < Pow2(p)
    ensures k < Pow2(p)
    ensures Home(hash, BUCKET_LENGTH * Pow2(p), k) / 8 == b
  {
    k := RoundForBucket(hash / 8, p, b);
    BucketOf(hash + 8 * Tri(k), Pow2(p));
    assert (hash + 8 * Tri(k)) / 8 == hash / 8 + Tri(k);
  }

  lemma LookForSlot(pos: nat, s: nat) returns (j: nat)
    requires pos / 8 == s / 8
    ensures j < 8 && InBucket(pos, j) == s
  {
    var a, b := pos % 8, s % 8;
    if b >= a {
      j := b - a;
      assert a + j == b;
    } else {
      j := b + 8 - a;
      assert a + j == b + 8;
    }
  }

  lemma LookBelow(k: nat, m: nat, j: nat)
    requires k < m && j < 8
    ensures 8 * k + j < 8 * m
  {
  }

  /** The first n probes visit every slot of the table. */
  lemma SlotReached(hash: nat, n: nat, s: nat) returns (t: nat)
    requires IsSlotCount(n)
    requires s < n
    ensures t < n && Slot(hash, n, t) == s
  {
    var p: nat :| n == BUCKET_LENGTH * Pow2(p);
    var k := BucketReached(hash, p, s / 8);
    var j := LookForSlot(Home(hash, n, k), s);
    t := 8 * k + j;
    SlotAt(hash, n, k, j);
    LookBelow(k, Pow2(p), j);
  }
}
