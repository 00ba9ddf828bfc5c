/** What the length and distance symbols, the fixed codes and the code length order are (section 3.2 of RFC 1951). */
module DeflateTables {
  import opened Powers
  import opened Canonical
  import opened InflateSpec
  import opened DeflateEncode

  // ---- lengths ----

  /** Extra bits of the length symbols: four symbols for each number of bits from 1 to 5. */
  lemma LengthExtraIs(i: nat)
    requires i < 29
    ensures LengthExtra(i) == if i < 8 || i == 28 then 0 else (i - 4) / 4
  {
  }

  /** Each symbol takes up where the one before it ends; the last one is the longest match alone. */
  lemma LengthBaseIs(i: nat)
    requires i < 27
    ensures LengthBase(0) == 3 && LengthBase(28) == 258
    ensures LengthBase(i + 1) == LengthBase(i) + Pow2(LengthExtra(i))
  {
    hide LengthExtra;
    LengthExtraIs(i);
    SmallPowers();
  }

  lemma SmallPowers()
    ensures Pow2(0) == 1 && Pow2(1) == 2 && Pow2(2) == 4 && Pow2(3) == 8 && Pow2(4) == 16 && Pow2(5) == 32
    ensures Pow2(6) == 64 && Pow2(7) == 128 && Pow2(8) == 256 && Pow2(9) == 512 && Pow2(10) == 1024
    ensures Pow2(11) == 2048 && Pow2(12) == 4096 && Pow2(13) == 8192
  {
    assert Pow2(4) == 16;
    assert Pow2(8) == 256;
    assert Pow2(12) == 4096;
  }

  lemma {:induction false} LengthsApart(i: nat, j: nat)
    requires i < j <= 27
    ensures LengthBase(i) + Pow2(LengthExtra(i)) <= LengthBase(j)
  {
    hide LengthBase, LengthExtra, Pow2;
    LengthBaseIs(j - 1);
    if i < j - 1 {
      LengthsApart(i, j - 1);
    }
  }

  /** Every match length has a symbol and extra bits that mean it... */
  lemma LengthHasSymbol(length: nat) returns (i: nat, extra: nat)
    requires 3 <= length <= 258
    ensures i < 29 && extra < Pow2(LengthExtra(i)) && LengthBase(i) + extra == length
  {
    hide LengthBase, LengthExtra, Pow2;
    if length == 258 {
      LengthBaseIs(0);
      LengthExtraIs(28);
      SmallPowers();
      i, extra := 28, 0;
    } else {
      LastLengths();
      i := LengthSymbolBelow(length, 27);
      extra := length - LengthBase(i);
    }
  }

  lemma LastLengths()
    ensures LengthBase(27) + Pow2(LengthExtra(27)) == 259
  {
    assert Pow2(5) == 32;
  }

  lemma {:induction false} LengthSymbolBelow(length: nat, top: nat) returns (i: nat)
    requires top <= 27 && 3 <= length < LengthBase(top) + Pow2(LengthExtra(top))
    ensures i <= top && LengthBase(i) <= length < LengthBase(i) + Pow2(LengthExtra(i))
    decreases top
  {
    hide LengthBase, LengthExtra, Pow2;
    LengthBaseIs(if top > 0 then top - 1 else 0);
    if length >= LengthBase(top) {
      i := top;
    } else {
      i := LengthSymbolBelow(length, top - 1);
    }
  }

  /** ...and below the longest one only one. */
  lemma LengthUnique(i: nat, e: nat, j: nat, f: nat)
    requires i < 29 && j < 29 && e < Pow2(LengthExtra(i)) && f < Pow2(LengthExtra(j))
    requires LengthBase(i) + e == LengthBase(j) + f < 258
    ensures i == j && e == f
  {
    hide LengthBase, LengthExtra, Pow2;
    LengthBaseIs(0);
    if i < j {
      LengthsApart(i, j);
    } else if j < i {
      LengthsApart(j, i);
    }
  }

  // ---- distances ----

  /** Extra bits of the distance symbols: two symbols for each number of bits from 1 to 13. */
  lemma DistExtraIs(i: nat)
    requires i < 30
    ensures DistExtra(i) == if i < 4 then 0 else (i - 2) / 2
  {
  }

  lemma DistBaseIs(i: nat)
    requires i < 29
    ensures DistBase(0) == 1
    ensures DistBase(i + 1) == DistBase(i) + Pow2(DistExtra(i))
  {
    hide DistExtra;
    DistExtraIs(i);
    SmallPowers();
  }

  lemma {:induction false} DistancesApart(i: nat, j: nat)
    requires i < j <= 29
    ensures DistBase(i) + Pow2(DistExtra(i)) <= DistBase(j)
  {
    hide DistBase, DistExtra, Pow2;
    DistBaseIs(j - 1);
    if i < j - 1 {
      DistancesApart(i, j - 1);
    }
  }

  lemma LastDistances()
    ensures DistBase(29) + Pow2(DistExtra(29)) == 32769
  {
    SmallPowers();
  }

  lemma {:induction false} DistanceSymbolBelow(dist: nat, top: nat) returns (i: nat)
    requires top <= 29 && 1 <= dist < DistBase(top) + Pow2(DistExtra(top))
    ensures i <= top && DistBase(i) <= dist < DistBase(i) + Pow2(DistExtra(i))
    decreases top
  {
    hide DistBase, DistExtra, Pow2;
    DistBaseIs(if top > 0 then top - 1 else 0);
    if dist >= DistBase(top) {
      i := top;
    } else {
      i := DistanceSymbolBelow(dist, top - 1);
    }
  }

  /** Every distance has exactly one symbol and extra bits that mean it. */
  lemma DistanceHasSymbol(dist: nat) returns (i: nat, extra: nat)
    requires 1 <= dist <= 32768
    ensures i < 30 && extra < Pow2(DistExtra(i)) && DistBase(i) + extra == dist
  {
    hide DistBase, DistExtra, Pow2;
    LastDistances();
    i := DistanceSymbolBelow(dist, 29);
    extra := dist - DistBase(i);
  }

  lemma DistanceUnique(i: nat, e: nat, j: nat, f: nat)
    requires i < 30 && j < 30 && e < Pow2(DistExtra(i)) && f < Pow2(DistExtra(j))
    requires DistBase(i) + e == DistBase(j) + f
    ensures i == j && e == f
  {
    hide DistBase, DistExtra, Pow2;
    if i < j {
      DistancesApart(i, j);
    } else if j < i {
      DistancesApart(j, i);
    }
  }

  /** Every match that DEFLATE knows can be written under the fixed codes, and means itself. */
  lemma MatchHasToken(length: nat, dist: nat) returns (t: Coded)
    requires 3 <= length <= 258 && 1 <= dist <= 32768
    ensures Codable(FixedLiteral(), FixedDistance(), t) && t.Copy? && Meaning(t) == Match(length, dist)
  {
    hide LengthBase, LengthExtra, DistBase, DistExtra, Pow2, FixedLiteral, FixedDistance;
    var lsym, lextra := LengthHasSymbol(length);
    var dsym, dextra := DistanceHasSymbol(dist);
    t := Copy(lsym, lextra, dsym, dextra);
  }

  // ---- the fixed codes (section 3.2.6) ----

  lemma FixedLengths(i: nat)
    requires i < 288
    ensures FixedLiteral()[i] == if i <= 143 then 8 else if i <= 255 then 9 else if i <= 279 then 7 else 8
    ensures i < 32 ==> FixedDistance()[i] == 5
  {
  }

  /** The fixed codes start where the RFC says: 00110000, 110010000, 0000000 and 11000000. */
  lemma FixedCodesStart()
    ensures CodeOf(FixedLiteral(), 0) == 0x30 && CodeOf(FixedLiteral(), 144) == 0x190
    ensures CodeOf(FixedLiteral(), 256) == 0 && CodeOf(FixedLiteral(), 280) == 0xC0
  {
    hide FixedLiteral, CountBelow, FirstCode, EndCode;
    FixedLengths(0);
    FixedLengths(144);
    FixedLengths(256);
    FixedLengths(280);
    FixedFirstCodes();
    FixedCounts(7);
    FixedCounts(8);
    FixedCounts(9);
  }

  lemma {:induction false} CountRun(lens: seq<nat>, from: nat, to: nat, len: nat, b: nat)
    requires from <= to <= |lens| && forall k :: from <= k < to ==> lens[k] == len
    ensures CountBelow(lens, to, b) == CountBelow(lens, from, b) + if len == b then to - from else 0
  {
    if from < to {
      CountRun(lens, from, to - 1, len, b);
    }
  }

  lemma CountNone(lens: seq<nat>, b: nat)
    ensures CountBelow(lens, 0, b) == 0
  {
  }

  /** How many of the first symbols have a length. */
  lemma FixedCounts(b: nat)
    ensures CountBelow(FixedLiteral(), 0, b) == 0
    ensures CountBelow(FixedLiteral(), 144, b) == if b == 8 then 144 else 0
    ensures CountBelow(FixedLiteral(), 256, b) == if b == 8 then 144 else if b == 9 then 112 else 0
    ensures CountBelow(FixedLiteral(), 280, b)
            == if b == 8 then 144 else if b == 9 then 112 else if b == 7 then 24 else 0
    ensures Count(FixedLiteral(), b) == if b == 8 then 152 else if b == 9 then 112 else if b == 7 then 24 else 0
  {
    hide FixedLiteral, CountBelow;
    var l := FixedLiteral();
    CountNone(l, b);
    forall k | 0 <= k < 288
      ensures l[k] == if k <= 143 then 8 else if k <= 255 then 9 else if k <= 279 then 7 else 8
    {
      FixedLengths(k);
    }
    CountRun(l, 0, 144, 8, b);
    CountRun(l, 144, 256, 9, b);
    CountRun(l, 256, 280, 7, b);
    CountRun(l, 280, 288, 8, b);
  }

  lemma {:induction false} NoShortCodes(b: nat)
    requires 1 <= b <= 7
    ensures FirstCode(FixedLiteral(), b) == 0
  {
    hide FixedLiteral, CountBelow, Count;
    if b > 1 {
      NoShortCodes(b - 1);
      FixedCounts(b - 1);
    }
  }

  lemma FixedFirstCodes()
    ensures FirstCode(FixedLiteral(), 7) == 0
    ensures FirstCode(FixedLiteral(), 8) == 48 && FirstCode(FixedLiteral(), 9) == 400
  {
    hide FixedLiteral, CountBelow, Count;
    NoShortCodes(7);
    FixedCounts(7);
    FixedCounts(8);
    assert EndCode(FixedLiteral(), 7) == 24;
    assert EndCode(FixedLiteral(), 8) == 200;
  }

  // ---- the order of the code length code (section 3.2.7) ----

  /** The repeat codes first, then 0, then from the middle lengths outwards. */
  lemma DezigzagIs(i: nat)
    requires i < 19
    ensures Dezigzag(i) == if i < 3 then 16 + i else if i == 3 then 0
                           else if i % 2 == 0 then 8 + (i - 4) / 2 else 8 - (i - 3) / 2
  {
  }
}
