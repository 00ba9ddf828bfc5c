/**
 * Canonical Huffman codes from code lengths, as section 3.2.2 of RFC 1951
 * numbers them, and the facts decoding rests on.
 */
module Canonical {
  import opened Powers
  import opened Bits
  import opened BitStream

  const MAX_BITS := 15

  ghost predicate IsLengths(lens: seq<nat>) {
    forall i :: 0 <= i < |lens| ==> lens[i] <= MAX_BITS
  }

  /** How many of the first n symbols have code length b. */
  function CountBelow(lens: seq<nat>, n: nat, b: nat): nat
    requires n <= |lens|
  {
    if n == 0 then 0 else CountBelow(lens, n - 1, b) + if lens[n - 1] == b then 1 else 0
  }

  function Count(lens: seq<nat>, b: nat): nat {
    CountBelow(lens, |lens|, b)
  }

  /** next_code[b] of the RFC: the smallest code of length b. */
  function FirstCode(lens: seq<nat>, b: nat): nat
    requires b >= 1
    decreases b, 0
  {
    if b == 1 then 0 else 2 * EndCode(lens, b - 1)
  }

  /** One past the largest code of length b. */
  function EndCode(lens: seq<nat>, b: nat): nat
    requires b >= 1
    decreases b, 1
  {
    FirstCode(lens, b) + Count(lens, b)
  }

  /** The code of symbol i, its first bit most significant. */
  function CodeOf(lens: seq<nat>, i: nat): nat
    requires i < |lens| && lens[i] > 0
  {
    FirstCode(lens, lens[i]) + CountBelow(lens, i, lens[i])
  }

  /** The Kraft sum in units of 2^-15. */
  function Kraft(lens: seq<nat>, n: nat): nat
    requires n <= |lens| && IsLengths(lens)
  {
    if n == 0 then 0
    else Kraft(lens, n - 1) + if lens[n - 1] == 0 then 0 else Pow2(MAX_BITS - lens[n - 1])
  }

  /** The lengths oversubscribe no part of the code space. */
  ghost predicate KraftHolds(lens: seq<nat>)
    requires IsLengths(lens)
  {
    Kraft(lens, |lens|) <= Pow2(MAX_BITS)
  }

  /** Symbol i's code is what the stream spells at c. */
  predicate Spells(lens: seq<nat>, data: seq<Byte>, c: nat, i: nat) {
    i < |lens| && lens[i] > 0 && CodeAt(data, c, lens[i]) == CodeOf(lens, i)
  }

  // ---- counting ----

  lemma {:induction false} CountMono(lens: seq<nat>, m: nat, n: nat, b: nat)
    requires m <= n <= |lens|
    ensures CountBelow(lens, m, b) <= CountBelow(lens, n, b)
  {
    if m < n {
      CountMono(lens, m, n - 1, b);
    }
  }

  /** A symbol's rank among those of its length is below their number. */
  lemma RankBelow(lens: seq<nat>, i: nat)
    requires i < |lens|
    ensures CountBelow(lens, i, lens[i]) < Count(lens, lens[i])
  {
    CountMono(lens, i + 1, |lens|, lens[i]);
  }

  /** Every rank belongs to a symbol. */
  lemma {:induction false} SymbolOfRank(lens: seq<nat>, n: nat, b: nat, r: nat) returns (i: nat)
    requires n <= |lens| && r < CountBelow(lens, n, b)
    ensures i < n && lens[i] == b && CountBelow(lens, i, b) == r
  {
    if lens[n - 1] == b && CountBelow(lens, n - 1, b) == r {
      i := n - 1;
    } else {
      i := SymbolOfRank(lens, n - 1, b, r);
    }
  }

  lemma RankUnique(lens: seq<nat>, i: nat, j: nat)
    requires i < j < |lens| && lens[i] == lens[j]
    ensures CountBelow(lens, i, lens[i]) < CountBelow(lens, j, lens[j])
  {
    CountMono(lens, i + 1, j, lens[i]);
  }

  // ---- the first length at which the stream falls below the end code ----

  ghost predicate Hit(lens: seq<nat>, data: seq<Byte>, c: nat, s: nat)
    requires s >= 1
  {
    CodeAt(data, c, s) < EndCode(lens, s)
  }

  lemma HitStays(lens: seq<nat>, data: seq<Byte>, c: nat, s: nat)
    requires s >= 1
    ensures Hit(lens, data, c, s) ==> Hit(lens, data, c, s + 1)
    ensures !Hit(lens, data, c, s) ==> FirstCode(lens, s + 1) <= CodeAt(data, c, s + 1)
    ensures Hit(lens, data, c, s) ==> CodeAt(data, c, s + 1) < FirstCode(lens, s + 1)
  {
  }

  lemma {:induction false} HitMono(lens: seq<nat>, data: seq<Byte>, c: nat, s: nat, t: nat)
    requires 1 <= s <= t
    requires Hit(lens, data, c, s)
    ensures Hit(lens, data, c, t)
  {
    if s < t {
      HitMono(lens, data, c, s, t - 1);
      HitStays(lens, data, c, t - 1);
    }
  }

  /** s is the first length whose end code lies above the stream. */
  ghost predicate FirstHit(lens: seq<nat>, data: seq<Byte>, c: nat, s: nat) {
    && s >= 1
    && Hit(lens, data, c, s)
    && (s > 1 ==> !Hit(lens, data, c, s - 1))
  }

  /** A spelled symbol has the length of the first hit. */
  lemma SpelledAtFirstHit(lens: seq<nat>, data: seq<Byte>, c: nat, i: nat)
    requires Spells(lens, data, c, i)
    ensures FirstHit(lens, data, c, lens[i])
  {
    var s := lens[i];
    RankBelow(lens, i);
    if s > 1 {
      HitStays(lens, data, c, s - 1);
    }
  }

  /** At the first hit some symbol is spelled. */
  lemma FirstHitSpelled(lens: seq<nat>, data: seq<Byte>, c: nat, s: nat) returns (i: nat)
    requires FirstHit(lens, data, c, s)
    ensures Spells(lens, data, c, i) && lens[i] == s
    ensures FirstCode(lens, s) <= CodeAt(data, c, s)
    ensures CountBelow(lens, i, s) == CodeAt(data, c, s) - FirstCode(lens, s)
  {
    if s > 1 {
      HitStays(lens, data, c, s - 1);
    }
    i := SymbolOfRank(lens, |lens|, s, CodeAt(data, c, s) - FirstCode(lens, s));
  }

  lemma FirstHitUnique(lens: seq<nat>, data: seq<Byte>, c: nat, s: nat, t: nat)
    requires FirstHit(lens, data, c, s) && FirstHit(lens, data, c, t)
    ensures s == t
  {
    if s < t {
      HitMono(lens, data, c, s, t - 1);
    } else if t < s {
      HitMono(lens, data, c, t, s - 1);
    }
  }

  /** No stream spells two symbols: canonical codes are prefix free. */
  lemma PrefixFree(lens: seq<nat>, data: seq<Byte>, c: nat, i: nat, j: nat)
    requires Spells(lens, data, c, i) && Spells(lens, data, c, j)
    ensures i == j
  {
    SpelledAtFirstHit(lens, data, c, i);
    SpelledAtFirstHit(lens, data, c, j);
    FirstHitUnique(lens, data, c, lens[i], lens[j]);
    if i < j {
      RankUnique(lens, i, j);
    } else if j < i {
      RankUnique(lens, j, i);
    }
  }

  // ---- the Kraft inequality ----

  /** The end code of length b in units of 2^-15. */
  lemma {:induction false} EndCodeShifted(lens: seq<nat>, b: nat)
    requires 1 < b <= MAX_BITS
    ensures Shl(EndCode(lens, b), MAX_BITS - b) ==
            Shl(EndCode(lens, b - 1), MAX_BITS - b + 1) + Shl(Count(lens, b), MAX_BITS - b)
  {
    ShlAdd(2 * EndCode(lens, b - 1), Count(lens, b), MAX_BITS - b);
    ShlShl(EndCode(lens, b - 1), 1, MAX_BITS - b);
    assert Shl(EndCode(lens, b - 1), 1) == 2 * EndCode(lens, b - 1);
  }

  /** Kraft terms of the symbols with lengths 1..b. */
  function KraftUpTo(lens: seq<nat>, n: nat, b: nat): nat
    requires n <= |lens| && b <= MAX_BITS
  {
    if n == 0 then 0
    else KraftUpTo(lens, n - 1, b) + if 1 <= lens[n - 1] <= b then Pow2(MAX_BITS - lens[n - 1]) else 0
  }

  lemma {:induction false} KraftStep(lens: seq<nat>, n: nat, b: nat)
    requires n <= |lens| && 1 <= b <= MAX_BITS
    ensures KraftUpTo(lens, n, b) == KraftUpTo(lens, n, b - 1) + Shl(CountBelow(lens, n, b), MAX_BITS - b)
  {
    if n == 0 {
      ShlZero(MAX_BITS - b);
    } else {
      KraftStep(lens, n - 1, b);
      if lens[n - 1] == b {
        ShlAdd(CountBelow(lens, n - 1, b), 1, MAX_BITS - b);
        ShlOne(MAX_BITS - b);
      }
    }
  }

  lemma {:induction false} ShlZero(k: nat)
    ensures Shl(0, k) == 0
  {
    if k > 0 {
      ShlZero(k - 1);
    }
  }

  /** The end code of length b weighs as much as all codes of lengths 1..b. */
  lemma {:induction false} EndCodeIsKraft(lens: seq<nat>, b: nat)
    requires 1 <= b <= MAX_BITS
    ensures Shl(EndCode(lens, b), MAX_BITS - b) == KraftUpTo(lens, |lens|, b)
  {
    KraftStep(lens, |lens|, b);
    if b == 1 {
      KraftUpToZero(lens, |lens|);
    } else {
      EndCodeIsKraft(lens, b - 1);
      EndCodeShifted(lens, b);
    }
  }

  lemma {:induction false} KraftUpToZero(lens: seq<nat>, n: nat)
    requires n <= |lens|
    ensures KraftUpTo(lens, n, 0) == 0
  {
    if n > 0 {
      KraftUpToZero(lens, n - 1);
    }
  }

  lemma {:induction false} KraftIsUpTo(lens: seq<nat>, n: nat)
    requires n <= |lens| && IsLengths(lens)
    ensures Kraft(lens, n) == KraftUpTo(lens, n, MAX_BITS)
  {
    if n > 0 {
      KraftIsUpTo(lens, n - 1);
    }
  }

  lemma {:induction false} KraftMono(lens: seq<nat>, n: nat, b: nat)
    requires n <= |lens| && b <= MAX_BITS
    ensures KraftUpTo(lens, n, b) <= KraftUpTo(lens, n, MAX_BITS)
  {
    if n > 0 {
      KraftMono(lens, n - 1, b);
    }
  }

  /** The end code of length b overflows b bits exactly when lengths 1..b are oversubscribed. */
  lemma EndCodeFits(lens: seq<nat>, b: nat)
    requires 1 <= b <= MAX_BITS
    ensures EndCode(lens, b) <= Pow2(b) <==> KraftUpTo(lens, |lens|, b) <= Pow2(MAX_BITS)
  {
    EndCodeIsKraft(lens, b);
    ShlOne(b);
    ShlShl(1, b, MAX_BITS - b);
    ShlOne(MAX_BITS);
    ShlStrict(Pow2(b), EndCode(lens, b), MAX_BITS - b);
    ShlStrict(EndCode(lens, b), Pow2(b), MAX_BITS - b);
  }

  lemma {:induction false} ShlStrict(a: nat, b: nat, k: nat)
    ensures a < b ==> Shl(a, k) < Shl(b, k)
    ensures a == b ==> Shl(a, k) == Shl(b, k)
  {
    if k > 0 {
      ShlStrict(a, b, k - 1);
    }
  }

  /** The table builder's test: wherever codes of some length exist, they fit. */
  ghost predicate FitsUpTo(lens: seq<nat>, b: nat)
    requires b <= MAX_BITS
  {
    forall s :: 1 <= s <= b && Count(lens, s) > 0 ==> EndCode(lens, s) <= Pow2(s)
  }

  lemma {:induction false} FitsMeansSum(lens: seq<nat>, b: nat)
    requires b <= MAX_BITS && FitsUpTo(lens, b)
    ensures KraftUpTo(lens, |lens|, b) <= Pow2(MAX_BITS)
  {
    if b == 0 {
      KraftUpToZero(lens, |lens|);
    } else if Count(lens, b) > 0 {
      EndCodeFits(lens, b);
    } else {
      FitsMeansSum(lens, b - 1);
      KraftStep(lens, |lens|, b);
      ShlZero(MAX_BITS - b);
    }
  }

  /** All the builder's tests pass exactly when the Kraft inequality holds. */
  lemma FitsIsKraft(lens: seq<nat>)
    requires IsLengths(lens)
    ensures FitsUpTo(lens, MAX_BITS) <==> KraftHolds(lens)
  {
    KraftIsUpTo(lens, |lens|);
    if KraftHolds(lens) {
      forall s | 1 <= s <= MAX_BITS && Count(lens, s) > 0 ensures EndCode(lens, s) <= Pow2(s) {
        KraftMono(lens, |lens|, s);
        EndCodeFits(lens, s);
      }
    }
    if FitsUpTo(lens, MAX_BITS) {
      FitsMeansSum(lens, MAX_BITS);
    }
  }

  /** With the Kraft inequality every end code fits, used or not. */
  lemma AllEndCodesFit(lens: seq<nat>, b: nat)
    requires IsLengths(lens) && KraftHolds(lens) && 1 <= b <= MAX_BITS
    ensures EndCode(lens, b) <= Pow2(b)
  {
    KraftIsUpTo(lens, |lens|);
    KraftMono(lens, |lens|, b);
    EndCodeFits(lens, b);
  }
}
