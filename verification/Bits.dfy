/** Bit operations on natural numbers as the inflate code uses them. */
module Bits {
  import opened Powers

  type Byte = x: nat | x < 256

  function Bit(n: nat, i: nat): (b: nat)
    ensures b < 2
  {
    if i == 0 then n % 2 else Bit(n / 2, i - 1)
  }

  /** n >> k */
  function Shr(n: nat, k: nat): nat {
    if k == 0 then n else Shr(n / 2, k - 1)
  }

  /** n << k */
  function Shl(n: nat, k: nat): nat {
    if k == 0 then n else 2 * Shl(n, k - 1)
  }

  /** n & ((1 << k) - 1) */
  function Low(n: nat, k: nat): nat {
    if k == 0 then 0 else n % 2 + 2 * Low(n / 2, k - 1)
  }

  function BitAnd(a: nat, b: nat): nat {
    if a == 0 || b == 0 then 0
    else 2 * BitAnd(a / 2, b / 2) + (if a % 2 == 1 && b % 2 == 1 then 1 else 0)
  }

  function BitOr(a: nat, b: nat): nat {
    if a == 0 then b
    else if b == 0 then a
    else 2 * BitOr(a / 2, b / 2) + (if a % 2 == 1 || b % 2 == 1 then 1 else 0)
  }

  lemma {:induction false} ZeroBit(i: nat)
    ensures Bit(0, i) == 0
  {
    if i > 0 {
      ZeroBit(i - 1);
    }
  }

  lemma BitOfDouble(m: nat, e: nat, i: nat)
    requires e < 2
    ensures Bit(2 * m + e, i) == if i == 0 then e else Bit(m, i - 1)
  {
  }

  lemma {:induction false} AndBit(a: nat, b: nat, i: nat)
    ensures Bit(BitAnd(a, b), i) == if Bit(a, i) == 1 && Bit(b, i) == 1 then 1 else 0
    decreases i
  {
    if a == 0 || b == 0 {
      ZeroBit(i);
    } else if i > 0 {
      AndBit(a / 2, b / 2, i - 1);
      BitOfDouble(BitAnd(a / 2, b / 2), BitAnd(a, b) % 2, i);
    }
  }

  lemma {:induction false} OrBit(a: nat, b: nat, i: nat)
    ensures Bit(BitOr(a, b), i) == if Bit(a, i) == 1 || Bit(b, i) == 1 then 1 else 0
    decreases i
  {
    if a == 0 || b == 0 {
      ZeroBit(i);
    } else if i > 0 {
      OrBit(a / 2, b / 2, i - 1);
      BitOfDouble(BitOr(a / 2, b / 2), BitOr(a, b) % 2, i);
    }
  }

  lemma {:induction false} ShrBit(n: nat, k: nat, i: nat)
    ensures Bit(Shr(n, k), i) == Bit(n, i + k)
    decreases k
  {
    if k > 0 {
      ShrBit(n / 2, k - 1, i);
    }
  }

  lemma {:induction false} ShlBit(n: nat, k: nat, i: nat)
    ensures Bit(Shl(n, k), i) == if i < k then 0 else Bit(n, i - k)
    decreases k
  {
    if k > 0 && i > 0 {
      ShlBit(n, k - 1, i - 1);
    }
  }

  lemma {:induction false} LowBit(n: nat, k: nat, i: nat)
    requires i < k
    ensures Bit(Low(n, k), i) == Bit(n, i)
    decreases k
  {
    if i > 0 {
      LowBit(n / 2, k - 1, i - 1);
      assert Low(n, k) / 2 == Low(n / 2, k - 1);
    }
  }

  lemma {:induction false} LowBound(n: nat, k: nat)
    ensures Low(n, k) < Pow2(k)
    decreases k
  {
    if k > 0 {
      LowBound(n / 2, k - 1);
    }
  }

  lemma {:induction false} LowSmall(n: nat, k: nat)
    requires n < Pow2(k)
    ensures Low(n, k) == n && Shr(n, k) == 0
    decreases k
  {
    if k > 0 {
      LowSmall(n / 2, k - 1);
    }
  }

  /** The parts of a + (b << k) when a fits in k bits. */
  lemma {:induction false} JoinParts(a: nat, b: nat, k: nat)
    requires a < Pow2(k)
    ensures Low(a + Shl(b, k), k) == a && Shr(a + Shl(b, k), k) == b
    decreases k
  {
    if k > 0 {
      JoinParts(a / 2, b, k - 1);
      assert (a + Shl(b, k)) / 2 == a / 2 + Shl(b, k - 1);
    }
  }

  /** `|` of disjoint bits is addition. */
  lemma {:induction false} OrDisjoint(a: nat, b: nat, k: nat)
    requires a < Pow2(k)
    ensures BitOr(a, Shl(b, k)) == a + Shl(b, k)
    decreases k
  {
    if k > 0 && a > 0 && Shl(b, k) > 0 {
      OrDisjoint(a / 2, b, k - 1);
      assert Shl(b, k) / 2 == Shl(b, k - 1);
    }
  }

  lemma {:induction false} OrSwap(a: nat, b: nat)
    ensures BitOr(a, b) == BitOr(b, a)
  {
    if a > 0 && b > 0 {
      OrSwap(a / 2, b / 2);
    }
  }

  /** A preshifted bound compares like the shifted-down number. */
  lemma {:induction false} ShiftedBound(n: nat, a: nat, k: nat)
    ensures n < Shl(a, k) <==> Shr(n, k) < a
    decreases k
  {
    if k > 0 {
      ShiftedBound(n / 2, a, k - 1);
    }
  }

  lemma {:induction false} ShlMono(a: nat, b: nat, k: nat)
    requires a <= b
    ensures Shl(a, k) <= Shl(b, k)
  {
    if k > 0 {
      ShlMono(a, b, k - 1);
    }
  }

  lemma {:induction false} ShlAdd(a: nat, b: nat, k: nat)
    ensures Shl(a + b, k) == Shl(a, k) + Shl(b, k)
  {
    if k > 0 {
      ShlAdd(a, b, k - 1);
    }
  }

  lemma {:induction false} ShlShl(a: nat, j: nat, k: nat)
    ensures Shl(Shl(a, j), k) == Shl(a, j + k)
  {
    if k > 0 {
      ShlShl(a, j, k - 1);
    }
  }

  lemma {:induction false} ShlOne(k: nat)
    ensures Shl(1, k) == Pow2(k)
  {
    if k > 0 {
      ShlOne(k - 1);
    }
  }

  /** Numbers below 2^k are determined by their low k bits. */
  lemma {:induction false} SameBits(a: nat, b: nat, k: nat)
    requires a < Pow2(k) && b < Pow2(k)
    requires forall i :: 0 <= i < k ==> Bit(a, i) == Bit(b, i)
    ensures a == b
    decreases k
  {
    if k > 0 {
      forall i | 0 <= i < k - 1 ensures Bit(a / 2, i) == Bit(b / 2, i) {
        assert Bit(a, i + 1) == Bit(b, i + 1);
      }
      SameBits(a / 2, b / 2, k - 1);
      assert Bit(a, 0) == Bit(b, 0);
    }
  }

  // ---- reading bits first-bit-first ----

  /** The low `bits` bits of v in stream order, the first one most significant. */
  function Rev(v: nat, bits: nat): (r: nat) {
    if bits == 0 then 0 else 2 * Rev(v, bits - 1) + Bit(v, bits - 1)
  }

  lemma {:induction false} RevBound(v: nat, bits: nat)
    ensures Rev(v, bits) < Pow2(bits)
  {
    if bits > 0 {
      RevBound(v, bits - 1);
    }
  }

  lemma {:induction false} RevBit(v: nat, bits: nat, i: nat)
    requires i < bits
    ensures Bit(Rev(v, bits), i) == Bit(v, bits - 1 - i)
    decreases bits
  {
    if i > 0 {
      RevBit(v, bits - 1, i - 1);
    }
  }

  /** Reversing twice gives the bits back. */
  lemma {:induction false} RevInvolutive(v: nat, bits: nat)
    requires v < Pow2(bits)
    ensures Rev(Rev(v, bits), bits) == v
  {
    var r := Rev(v, bits);
    RevBound(r, bits);
    forall i | 0 <= i < bits ensures Bit(Rev(r, bits), i) == Bit(v, i) {
      RevBit(r, bits, i);
      RevBit(v, bits, bits - 1 - i);
    }
    SameBits(Rev(r, bits), v, bits);
  }

  /** Only the low bits matter to Rev. */
  lemma {:induction false} RevSame(a: nat, b: nat, bits: nat)
    requires forall i :: 0 <= i < bits ==> Bit(a, i) == Bit(b, i)
    ensures Rev(a, bits) == Rev(b, bits)
  {
    if bits > 0 {
      RevSame(a, b, bits - 1);
    }
  }

  lemma RevLow(n: nat, k: nat, bits: nat)
    requires bits <= k
    ensures Rev(Low(n, k), bits) == Rev(n, bits)
  {
    forall i | 0 <= i < bits ensures Bit(Low(n, k), i) == Bit(n, i) {
      LowBit(n, k, i);
    }
    RevSame(Low(n, k), n, bits);
  }

  lemma {:induction false} RevPrefix(v: nat, bits: nat, s: nat)
    requires s <= bits
    ensures Shr(Rev(v, bits), bits - s) == Rev(v, s)
    decreases bits
  {
    if s < bits {
      RevPrefix(v, bits - 1, s);
    }
  }

  // ---- stbi__bitreverse16 and stbi__bit_reverse ----

  /** One line of stbi__bitreverse16: exchanges the bits under the two masks. */
  function Exchange(n: nat, high: nat, low: nat, k: nat): nat {
    BitOr(Shr(BitAnd(n, high), k), Shl(BitAnd(n, low), k))
  }

  function BitReverse16(n: nat): nat {
    var n1 := Exchange(n, 0xAAAA, 0x5555, 1);
    var n2 := Exchange(n1, 0xCCCC, 0x3333, 2);
    var n3 := Exchange(n2, 0xF0F0, 0x0F0F, 4);
    Exchange(n3, 0xFF00, 0x00FF, 8)
  }

  function BitReverse(v: nat, bits: nat): nat
    requires bits <= 16
  {
    Shr(BitReverse16(v), 16 - bits)
  }

  lemma ExchangeBit(n: nat, high: nat, low: nat, k: nat, i: nat)
    ensures Bit(Exchange(n, high, low, k), i) ==
            if (Bit(n, i + k) == 1 && Bit(high, i + k) == 1)
               || (i >= k && Bit(n, i - k) == 1 && Bit(low, i - k) == 1) then 1 else 0
  {
    OrBit(Shr(BitAnd(n, high), k), Shl(BitAnd(n, low), k), i);
    ShrBit(BitAnd(n, high), k, i);
    AndBit(n, high, i + k);
    ShlBit(BitAnd(n, low), k, i);
    if i >= k {
      AndBit(n, low, i - k);
    }
  }

  /** Bit i of a number given by its halves at bit k. */
  lemma {:induction false} JoinBit(d: nat, q: nat, k: nat, i: nat)
    requires d < Pow2(k)
    ensures Bit(d + Shl(q, k), i) == if i < k then Bit(d, i) else Bit(q, i - k)
    decreases k
  {
    if k > 0 && i > 0 {
      JoinBit(d / 2, q, k - 1, i - 1);
      assert (d + Shl(q, k)) / 2 == d / 2 + Shl(q, k - 1);
    }
  }

  /** Bit i of a sixteen-bit number given by its four hex digits. */
  lemma HexBit(d0: nat, d1: nat, d2: nat, d3: nat, i: nat)
    requires d0 < 16 && d1 < 16 && d2 < 16 && d3 < 16
    ensures Bit(d0 + 16 * d1 + 256 * d2 + 4096 * d3, i) ==
            if i < 4 then Bit(d0, i) else if i < 8 then Bit(d1, i - 4)
            else if i < 12 then Bit(d2, i - 8) else if i < 16 then Bit(d3, i - 12) else 0
  {
    assert Pow2(4) == 16;
    HexStep(d0, d1 + 16 * d2 + 256 * d3, i);
    if i >= 4 {
      HexStep(d1, d2 + 16 * d3, i - 4);
      if i >= 8 {
        HexStep(d2, d3, i - 8);
        if i >= 12 {
          HexStep(d3, 0, i - 12);
          ZeroBit(i - 12);
          if i >= 16 {
            ZeroBit(i - 16);
          }
        }
      }
    }
  }

  lemma HexStep(d: nat, q: nat, i: nat)
    requires d < 16
    ensures Bit(d + 16 * q, i) == if i < 4 then Bit(d, i) else Bit(q, i - 4)
  {
    assert Pow2(4) == 16;
    JoinBit(d, q, 4, i);
    assert Shl(q, 1) == 2 * q && Shl(q, 2) == 2 * Shl(q, 1);
    assert Shl(q, 3) == 2 * Shl(q, 2) && Shl(q, 4) == 2 * Shl(q, 3);
  }

  lemma DigitBits()
    ensures Bit(0xA, 0) == 0 && Bit(0xA, 1) == 1 && Bit(0xA, 2) == 0 && Bit(0xA, 3) == 1
    ensures Bit(0x5, 0) == 1 && Bit(0x5, 1) == 0 && Bit(0x5, 2) == 1 && Bit(0x5, 3) == 0
    ensures Bit(0xC, 0) == 0 && Bit(0xC, 1) == 0 && Bit(0xC, 2) == 1 && Bit(0xC, 3) == 1
    ensures Bit(0x3, 0) == 1 && Bit(0x3, 1) == 1 && Bit(0x3, 2) == 0 && Bit(0x3, 3) == 0
    ensures Bit(0xF, 0) == 1 && Bit(0xF, 1) == 1 && Bit(0xF, 2) == 1 && Bit(0xF, 3) == 1
    ensures Bit(0x0, 0) == 0 && Bit(0x0, 1) == 0 && Bit(0x0, 2) == 0 && Bit(0x0, 3) == 0
  {
  }

  /** Whether i lies in the upper half of its group of 2k bits, for k = 1, 2, 4, 8. */
  predicate Upper(i: nat, k: nat) {
    if k == 1 then i % 2 == 1
    else if k == 2 then (i / 2) % 2 == 1
    else if k == 4 then (i / 4) % 2 == 1
    else (i / 8) % 2 == 1
  }

  /** The mask pair for distance k: the upper and the lower half of every group of 2k bits. */
  ghost predicate MaskPair(high: nat, low: nat, k: nat) {
    forall i :: 0 <= i < 24 ==> MaskBits(high, low, k, i)
  }

  ghost predicate MaskBits(high: nat, low: nat, k: nat, i: nat) {
    && Bit(high, i) == (if i < 16 && Upper(i, k) then 1 else 0)
    && Bit(low, i) == (if i < 16 && !Upper(i, k) then 1 else 0)
  }

  /** Bit i changes places within its pair, pair of pairs, nibble pair or byte pair. */
  function Partner(i: nat, k: nat): int {
    if Upper(i, k) then i - k else i + k
  }

  lemma Masks1()
    ensures MaskPair(0xAAAA, 0x5555, 1)
  {
    forall i | 0 <= i < 24 ensures MaskBits(0xAAAA, 0x5555, 1, i) {
      DigitBits();
      HexBit(0xA, 0xA, 0xA, 0xA, i);
      HexBit(0x5, 0x5, 0x5, 0x5, i);
    }
  }

  lemma Masks2()
    ensures MaskPair(0xCCCC, 0x3333, 2)
  {
    forall i | 0 <= i < 24 ensures MaskBits(0xCCCC, 0x3333, 2, i) {
      DigitBits();
      HexBit(0xC, 0xC, 0xC, 0xC, i);
      HexBit(0x3, 0x3, 0x3, 0x3, i);
    }
  }

  lemma Masks4()
    ensures MaskPair(0xF0F0, 0x0F0F, 4)
  {
    forall i | 0 <= i < 24 ensures MaskBits(0xF0F0, 0x0F0F, 4, i) {
      DigitBits();
      HexBit(0x0, 0xF, 0x0, 0xF, i);
      HexBit(0xF, 0x0, 0xF, 0x0, i);
    }
  }

  lemma Masks8()
    ensures MaskPair(0xFF00, 0x00FF, 8)
  {
    forall i | 0 <= i < 24 ensures MaskBits(0xFF00, 0x00FF, 8, i) {
      DigitBits();
      HexBit(0x0, 0x0, 0xF, 0xF, i);
      HexBit(0xF, 0xF, 0x0, 0x0, i);
    }
  }

  lemma ExchangeMoves(n: nat, high: nat, low: nat, k: nat, i: nat)
    requires k in {1, 2, 4, 8} && MaskPair(high, low, k) && i < 16
    ensures 0 <= Partner(i, k) < 16
    ensures Bit(Exchange(n, high, low, k), i) == Bit(n, Partner(i, k))
  {
    ExchangeBit(n, high, low, k, i);
    PartnerGroup(i, k);
    assert MaskBits(high, low, k, i + k);
    if i >= k {
      assert MaskBits(high, low, k, i - k);
    }
  }

  lemma Group1(i: nat)
    requires i < 16
    ensures Upper(i + 1, 1) == !Upper(i, 1)
    ensures i >= 1 ==> Upper(i - 1, 1) == !Upper(i, 1)
    ensures (i < 1 ==> !Upper(i, 1)) && 0 <= Partner(i, 1) < 16
  {
  }

  lemma Group2(i: nat)
    requires i < 16
    ensures Upper(i + 2, 2) == !Upper(i, 2)
    ensures i >= 2 ==> Upper(i - 2, 2) == !Upper(i, 2)
    ensures (i < 2 ==> !Upper(i, 2)) && 0 <= Partner(i, 2) < 16
  {
  }

  lemma Group4(i: nat)
    requires i < 16
    ensures Upper(i + 4, 4) == !Upper(i, 4)
    ensures i >= 4 ==> Upper(i - 4, 4) == !Upper(i, 4)
    ensures (i < 4 ==> !Upper(i, 4)) && 0 <= Partner(i, 4) < 16
  {
  }

  lemma Group8(i: nat)
    requires i < 16
    ensures Upper(i + 8, 8) == !Upper(i, 8)
    ensures i >= 8 ==> Upper(i - 8, 8) == !Upper(i, 8)
    ensures (i < 8 ==> !Upper(i, 8)) && 0 <= Partner(i, 8) < 16
  {
  }

  lemma PartnerGroup(i: nat, k: nat)
    requires k in {1, 2, 4, 8} && i < 16
    ensures 0 <= Partner(i, k) < 16
    ensures Upper(i + k, k) == !Upper(i, k)
    ensures i >= k ==> Upper(i - k, k) == !Upper(i, k)
    ensures i < k ==> !Upper(i, k)
  {
    hide Upper, Partner;
    Group1(i);
    Group2(i);
    Group4(i);
    Group8(i);
  }

  lemma PartnerChain(i: nat)
    requires i < 16
    ensures Partner(i, 8) >= 0 && Partner(Partner(i, 8), 4) >= 0 && Partner(Partner(Partner(i, 8), 4), 2) >= 0
    ensures Partner(Partner(Partner(Partner(i, 8), 4), 2), 1) == 15 - i
  {
  }

  lemma {:induction false} AndBound(a: nat, b: nat)
    ensures BitAnd(a, b) <= b
  {
    if a > 0 && b > 0 {
      AndBound(a / 2, b / 2);
    }
  }

  lemma {:induction false} OrBound(a: nat, b: nat)
    ensures BitOr(a, b) <= a + b
  {
    if a > 0 && b > 0 {
      OrBound(a / 2, b / 2);
    }
  }

  /** The four exchanges reverse the low sixteen bits. */
  lemma BitReverse16IsRev(n: nat)
    ensures BitReverse16(n) == Rev(n, 16)
  {
    var n1 := Exchange(n, 0xAAAA, 0x5555, 1);
    var n2 := Exchange(n1, 0xCCCC, 0x3333, 2);
    var n3 := Exchange(n2, 0xF0F0, 0x0F0F, 4);
    var r := Exchange(n3, 0xFF00, 0x00FF, 8);
    Masks1();
    Masks2();
    Masks4();
    Masks8();
    forall i | 0 <= i < 16 ensures Bit(r, i) == Bit(Rev(n, 16), i) {
      PartnerChain(i);
      ExchangeMoves(n3, 0xFF00, 0x00FF, 8, i);
      var i1 := Partner(i, 8);
      ExchangeMoves(n2, 0xF0F0, 0x0F0F, 4, i1);
      var i2 := Partner(i1, 4);
      ExchangeMoves(n1, 0xCCCC, 0x3333, 2, i2);
      var i3 := Partner(i2, 2);
      ExchangeMoves(n, 0xAAAA, 0x5555, 1, i3);
      RevBit(n, 16, i);
    }
    LastExchangeBound(n3);
    RevBound(n, 16);
    SameBits(r, Rev(n, 16), 16);
  }

  lemma LastExchangeBound(n: nat)
    ensures Exchange(n, 0xFF00, 0x00FF, 8) < Pow2(16)
  {
    var a, b := BitAnd(n, 0xFF00), BitAnd(n, 0x00FF);
    AndBound(n, 0xFF00);
    AndBound(n, 0x00FF);
    OrBound(Shr(a, 8), Shl(b, 8));
    ShlMono(b, 0xFF, 8);
    ShrMono(a, 0xFF00, 8);
    assert Shl(0xFF, 8) == 0xFF00;
    assert Shr(0xFF00, 8) == 0xFF;
    assert Pow2(8) == 256;
    Pow2Add(8, 8);
  }

  lemma {:induction false} ShrMono(a: nat, b: nat, k: nat)
    requires a <= b
    ensures Shr(a, k) <= Shr(b, k)
    decreases k
  {
    if k > 0 {
      ShrMono(a / 2, b / 2, k - 1);
    }
  }

  /** stbi__bit_reverse reverses the low `bits` bits. */
  lemma BitReverseIsRev(v: nat, bits: nat)
    requires bits <= 16
    ensures BitReverse(v, bits) == Rev(v, bits)
  {
    BitReverse16IsRev(v);
    RevPrefix(v, 16, bits);
  }
}
