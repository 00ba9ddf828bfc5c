/** The decoding tables of stbi__zhuffman and how stbi__zbuild_huffman fills them. */
module HuffmanTable {
  import opened Powers
  import opened Bits
  import opened Canonical

  const ZFAST_BITS := 9
  const ZFAST_SIZE := 512
  const ZNSYMS := 288

  // ---- where symbols go in the size and value arrays ----

  /** Number of symbols with code lengths 1..b-1 among the first n. */
  function ShorterBelow(lens: seq<nat>, n: nat, b: nat): nat
    requires n <= |lens|
  {
    if b <= 1 then 0 else ShorterBelow(lens, n, b - 1) + CountBelow(lens, n, b - 1)
  }

  function FirstSymbol(lens: seq<nat>, b: nat): nat {
    ShorterBelow(lens, |lens|, b)
  }

  /** Symbols sorted by code: the place of symbol i. */
  function Place(lens: seq<nat>, i: nat): nat
    requires i < |lens|
  {
    FirstSymbol(lens, lens[i]) + CountBelow(lens, i, lens[i])
  }

  lemma {:induction false} ShorterStep(lens: seq<nat>, n: nat, b: nat)
    requires n < |lens|
    ensures ShorterBelow(lens, n + 1, b) == ShorterBelow(lens, n, b) + if 1 <= lens[n] < b then 1 else 0
  {
    if b > 1 {
      ShorterStep(lens, n, b - 1);
    }
  }

  lemma {:induction false} ShorterBound(lens: seq<nat>, n: nat, b: nat)
    requires n <= |lens|
    ensures ShorterBelow(lens, n, b) <= n
  {
    if n == 0 {
      ShorterNone(lens, b);
    } else {
      ShorterStep(lens, n - 1, b);
      ShorterBound(lens, n - 1, b);
    }
  }

  lemma {:induction false} ShorterNone(lens: seq<nat>, b: nat)
    ensures ShorterBelow(lens, 0, b) == 0
  {
    if b > 1 {
      ShorterNone(lens, b - 1);
    }
  }

  lemma {:induction false} ShorterMono(lens: seq<nat>, a: nat, b: nat)
    requires a <= b
    ensures FirstSymbol(lens, a) <= FirstSymbol(lens, b)
  {
    if a < b {
      ShorterMono(lens, a, b - 1);
    }
  }

  lemma PlaceInRange(lens: seq<nat>, i: nat)
    requires i < |lens| && lens[i] > 0
    ensures FirstSymbol(lens, lens[i]) <= Place(lens, i) < FirstSymbol(lens, lens[i] + 1) <= |lens|
  {
    RankBelow(lens, i);
    ShorterBound(lens, |lens|, lens[i] + 1);
  }

  lemma PlaceUnique(lens: seq<nat>, i: nat, j: nat)
    requires i < j < |lens| && lens[i] > 0 && lens[j] > 0
    ensures Place(lens, i) != Place(lens, j)
  {
    PlaceInRange(lens, i);
    PlaceInRange(lens, j);
    if lens[i] == lens[j] {
      RankUnique(lens, i, j);
    } else if lens[i] < lens[j] {
      ShorterMono(lens, lens[i] + 1, lens[j]);
    } else {
      ShorterMono(lens, lens[j] + 1, lens[i]);
    }
  }

  // ---- the fast table ----

  /** Entry j of the fast table, once the first n symbols are in. */
  ghost predicate FastOk(lens: seq<nat>, n: nat, j: nat, v: nat)
    requires n <= |lens|
  {
    if v == 0 then
      forall i :: 0 <= i < n ==> !FastMatch(lens, i, j)
    else
      Low(v, 9) < n && FastMatch(lens, Low(v, 9), j) && Shr(v, 9) == lens[Low(v, 9)]
  }

  /** The nine stream bits in j start with symbol i's code. */
  ghost predicate FastMatch(lens: seq<nat>, i: nat, j: nat)
    requires i < |lens|
  {
    1 <= lens[i] <= ZFAST_BITS && Rev(j, lens[i]) == CodeOf(lens, i)
  }

  lemma {:induction false} LowNext(j: nat, s: nat)
    ensures Low(j + Pow2(s), s) == Low(j, s)
  {
    if s > 0 {
      LowNext(j / 2, s - 1);
      assert (j + Pow2(s)) / 2 == j / 2 + Pow2(s - 1);
    }
  }

  lemma {:induction false} LowGap(j: nat, j': nat, s: nat)
    requires j < j' < j + Pow2(s)
    ensures Low(j', s) != Low(j, s)
  {
    if s > 0 && j % 2 == j' % 2 {
      LowGap(j / 2, j' / 2, s - 1);
    }
  }

  /** Stepping through the table by 2^s from the reversed code meets exactly the matching entries. */
  lemma MatchesByLow(code: nat, s: nat, j: nat)
    requires code < Pow2(s)
    ensures Low(j, s) == Rev(code, s) <==> Rev(j, s) == code
  {
    RevLow(j, s, s);
    if Low(j, s) == Rev(code, s) {
      RevInvolutive(code, s);
    }
    if Rev(j, s) == code {
      LowBound(j, s);
      RevInvolutive(Low(j, s), s);
    }
  }

  lemma RangeStart(lens: seq<nat>)
    ensures FirstCode(lens, 1) == 0 && FirstSymbol(lens, 1) == 0
  {
  }

  lemma RangeStep(lens: seq<nat>, i: nat)
    requires 1 <= i
    ensures EndCode(lens, i) == FirstCode(lens, i) + Count(lens, i)
    ensures FirstCode(lens, i + 1) == 2 * EndCode(lens, i)
    ensures FirstSymbol(lens, i + 1) == FirstSymbol(lens, i) + Count(lens, i)
  {
  }

  class ZHuffman {
    const fast: array<nat>
    const firstcode: array<nat>
    const maxcode: array<nat>
    const firstsymbol: array<nat>
    const size: array<nat>
    const value: array<nat>

    constructor ()
      ensures Shaped()
      ensures fresh(fast) && fresh(firstcode) && fresh(maxcode) && fresh(firstsymbol) && fresh(size) && fresh(value)
    {
      fast, firstcode, maxcode := new nat[ZFAST_SIZE], new nat[16], new nat[17];
      firstsymbol, size, value := new nat[16], new nat[ZNSYMS], new nat[ZNSYMS];
    }

    ghost predicate Shaped() {
      && fast.Length == ZFAST_SIZE && firstcode.Length == 16 && maxcode.Length == 17
      && firstsymbol.Length == 16 && size.Length == ZNSYMS && value.Length == ZNSYMS
      && fast != firstcode && fast != maxcode && fast != firstsymbol && fast != size && fast != value
      && firstcode != maxcode && firstcode != firstsymbol && firstcode != size && firstcode != value
      && maxcode != firstsymbol && maxcode != size && maxcode != value
      && firstsymbol != size && firstsymbol != value && size != value
    }

    ghost function Arrays(): set<object> {
      {fast, firstcode, maxcode, firstsymbol, size, value}
    }

    /** The ranges of codes and sorted symbols for lengths below b. */
    ghost predicate RangesOk(lens: seq<nat>, b: nat)
      requires Shaped() && b <= 16
      reads firstcode, maxcode, firstsymbol
    {
      forall s :: 1 <= s < b ==>
        && firstcode[s] == FirstCode(lens, s)
        && maxcode[s] == Shl(EndCode(lens, s), 16 - s)
        && firstsymbol[s] == FirstSymbol(lens, s)
    }

    ghost predicate SymbolsOk(lens: seq<nat>, n: nat)
      requires Shaped() && n <= |lens| <= ZNSYMS
      reads size, value
    {
      forall i :: 0 <= i < n && lens[i] > 0 ==> SymbolOk(lens, i)
    }

    ghost predicate SymbolOk(lens: seq<nat>, i: nat)
      requires Shaped() && i < |lens| <= ZNSYMS && lens[i] > 0
      reads size, value
    {
      PlaceInRange(lens, i);
      size[Place(lens, i)] == lens[i] && value[Place(lens, i)] == i
    }

    ghost predicate FastTableOk(lens: seq<nat>, n: nat)
      requires Shaped() && n <= |lens|
      reads fast
    {
      forall j :: 0 <= j < ZFAST_SIZE ==> FastOk(lens, n, j, fast[j])
    }

    /** The tables decode the canonical code of these lengths. */
    ghost predicate Represents(lens: seq<nat>)
      reads Arrays()
    {
      && Shaped() && IsLengths(lens) && |lens| <= ZNSYMS
      && KraftHolds(lens)
      && RangesOk(lens, 16) && maxcode[16] == 0x1_0000
      && SymbolsOk(lens, |lens|)
      && FastTableOk(lens, |lens|)
    }

    /** stbi__zbuild_huffman */
    method Build(sizelist: seq<nat>) returns (ok: bool)
      requires Shaped() && IsLengths(sizelist) && |sizelist| <= ZNSYMS
      modifies Arrays()
      ensures ok <==> KraftHolds(sizelist)
      ensures ok ==> Represents(sizelist)
    {
      hide Kraft, CountBelow, FastOk, Place, FirstCode, EndCode;
      ClearFast(sizelist);
      var sizes := CountSizes(sizelist);
      FitsIsKraft(sizelist);
      ok := SizesPlausible(sizes, sizelist);
      if !ok {
        return;
      }
      var nextCode;
      ok, nextCode := AssignRanges(sizes, sizelist);
      if !ok {
        return;
      }
      FillSymbols(nextCode, sizelist);
    }

    /** The early test that no length has more codes than values. */
    method SizesPlausible(sizes: array<nat>, ghost lens: seq<nat>) returns (ok: bool)
      requires sizes.Length == 17
      requires forall b :: 1 <= b < 16 ==> sizes[b] == Count(lens, b)
      ensures !ok ==> !FitsUpTo(lens, MAX_BITS)
    {
      hide Count, Pow2, Shl, FirstCode;
      var i := 1;
      while i < 16
        invariant 1 <= i <= 16
      {
        ShlOne(i);
        if sizes[i] > Shl(1, i) {
          assert EndCode(lens, i) > Pow2(i);
          return false;
        }
        i := i + 1;
      }
      return true;
    }

    method CountSizes(sizelist: seq<nat>) returns (sizes: array<nat>)
      requires IsLengths(sizelist)
      ensures fresh(sizes) && sizes.Length == 17
      ensures forall b :: 1 <= b < 16 ==> sizes[b] == Count(sizelist, b)
    {
      sizes := new nat[17](_ => 0);
      var i := 0;
      while i < |sizelist|
        invariant 0 <= i <= |sizelist|
        invariant forall b :: 0 <= b < 16 ==> sizes[b] == CountBelow(sizelist, i, b)
        modifies sizes
      {
        sizes[sizelist[i]] := sizes[sizelist[i]] + 1;
        i := i + 1;
      }
      sizes[0] := 0;
    }

    /** Codes and symbol ranges for every length, unless some length overflows. */
    method AssignRanges(sizes: array<nat>, ghost lens: seq<nat>) returns (ok: bool, nextCode: array<nat>)
      requires Shaped() && sizes.Length == 17 && sizes !in Arrays()
      requires forall b :: 1 <= b < 16 ==> sizes[b] == Count(lens, b)
      modifies firstcode, maxcode, firstsymbol
      ensures ok <==> FitsUpTo(lens, MAX_BITS)
      ensures ok ==> RangesOk(lens, 16) && maxcode[16] == 0x1_0000
      ensures fresh(nextCode) && nextCode.Length == 16
      ensures ok ==> forall s :: 1 <= s < 16 ==> nextCode[s] == FirstCode(lens, s)
    {
      hide FirstCode, EndCode, Count, FirstSymbol, Shl, Pow2;
      nextCode := new nat[16];
      RangeStart(lens);
      var i, code, k := 1, 0, 0;
      while i < 16
        invariant 1 <= i <= 16
        invariant code == FirstCode(lens, i) && k == FirstSymbol(lens, i)
        invariant FitsUpTo(lens, i - 1)
        invariant RangesOk(lens, i)
        invariant forall s :: 1 <= s < i ==> nextCode[s] == FirstCode(lens, s)
        invariant forall b :: 1 <= b < 16 ==> sizes[b] == Count(lens, b)
        modifies firstcode, maxcode, firstsymbol, nextCode
      {
        nextCode[i], firstcode[i], firstsymbol[i] := code, code, k;
        code := code + sizes[i];
        ShlOne(i);
        RangeStep(lens, i);
        if sizes[i] > 0 {
          if code - 1 >= Shl(1, i) {
            return false, nextCode;
          }
        }
        maxcode[i] := Shl(code, 16 - i);
        code := 2 * code;
        k := k + sizes[i];
        i := i + 1;
      }
      maxcode[16] := 0x1_0000;
      ok := true;
    }

    method ClearFast(ghost lens: seq<nat>)
      requires Shaped()
      modifies fast
      ensures FastTableOk(lens, 0)
    {
      var j := 0;
      while j < ZFAST_SIZE
        invariant 0 <= j <= ZFAST_SIZE
        invariant forall j' :: 0 <= j' < j ==> fast[j'] == 0
        modifies fast
      {
        fast[j] := 0;
        j := j + 1;
      }
    }

    /** Enters every symbol into the sorted arrays and, if short enough, into the fast table. */
    method FillSymbols(nextCode: array<nat>, sizelist: seq<nat>)
      requires Shaped() && IsLengths(sizelist) && |sizelist| <= ZNSYMS && KraftHolds(sizelist)
      requires RangesOk(sizelist, 16) && FastTableOk(sizelist, 0)
      requires nextCode.Length == 16 && nextCode !in Arrays()
      requires forall s :: 1 <= s < 16 ==> nextCode[s] == FirstCode(sizelist, s)
      modifies fast, size, value, nextCode
      ensures SymbolsOk(sizelist, |sizelist|) && FastTableOk(sizelist, |sizelist|)
    {
      hide FirstCode, CountBelow, FastOk, Kraft, ShorterBelow;
      assert SymbolsOk(sizelist, 0);
      CountsStart(sizelist);
      var i := 0;
      while i < |sizelist|
        invariant 0 <= i <= |sizelist|
        invariant forall s :: 1 <= s < 16 ==> nextCode[s] == FirstCode(sizelist, s) + CountBelow(sizelist, i, s)
        invariant SymbolsOk(sizelist, i) && FastTableOk(sizelist, i)
        modifies fast, size, value, nextCode
      {
        EnterSymbol(i, nextCode, sizelist);
        CountsStep(sizelist, i);
        i := i + 1;
      }
    }

    method EnterSymbol(i: nat, nextCode: array<nat>, sizelist: seq<nat>)
      requires Shaped() && IsLengths(sizelist) && |sizelist| <= ZNSYMS && KraftHolds(sizelist)
      requires RangesOk(sizelist, 16)
      requires nextCode.Length == 16 && nextCode !in Arrays()
      requires i < |sizelist| && SymbolsOk(sizelist, i) && FastTableOk(sizelist, i)
      requires sizelist[i] > 0 ==> nextCode[sizelist[i]] == CodeOf(sizelist, i)
      modifies fast, size, value, nextCode
      ensures SymbolsOk(sizelist, i + 1) && FastTableOk(sizelist, i + 1)
      ensures forall s :: 1 <= s < 16 ==> nextCode[s] == old(nextCode[s]) + if s == sizelist[i] then 1 else 0
    {
      hide FirstCode, CountBelow, FastOk, Kraft, FirstSymbol;
      var s := sizelist[i];
      if s > 0 {
        var c := nextCode[s] - firstcode[s] + firstsymbol[s];
        StoreSymbol(c, s, i, sizelist);
        if s <= ZFAST_BITS {
          EnterFast(i, nextCode[s], sizelist);
        } else {
          FastSkipped(sizelist, i);
        }
        nextCode[s] := nextCode[s] + 1;
      } else {
        FastSkipped(sizelist, i);
      }
    }

    method StoreSymbol(c: nat, s: nat, i: nat, ghost lens: seq<nat>)
      requires Shaped() && i < |lens| <= ZNSYMS && s == lens[i] > 0 && c == Place(lens, i)
      requires SymbolsOk(lens, i)
      modifies size, value
      ensures SymbolsOk(lens, i + 1)
    {
      PlaceInRange(lens, i);
      forall j | 0 <= j < i && lens[j] > 0 ensures Place(lens, j) != c && Place(lens, j) < ZNSYMS {
        PlaceUnique(lens, j, i);
        PlaceInRange(lens, j);
      }
      assert forall j :: 0 <= j < i && lens[j] > 0 ==> SymbolOk(lens, j);
      size[c], value[c] := s, i;
      assert SymbolOk(lens, i);
    }

    /** All entries whose first s bits are symbol i's code. */
    method EnterFast(i: nat, code: nat, lens: seq<nat>)
      requires Shaped() && IsLengths(lens) && |lens| <= ZNSYMS && KraftHolds(lens)
      requires i < |lens| && 1 <= lens[i] <= ZFAST_BITS && code == CodeOf(lens, i)
      requires FastTableOk(lens, i)
      modifies fast
      ensures FastTableOk(lens, i + 1)
    {
      hide FastOk, CodeOf, Kraft, BitOr, BitReverse, Rev, Low, Shl;
      var s := lens[i];
      var fastv := BitOr(Shl(s, 9), i);
      var r := BitReverse(code, s);
      FastTarget(code, s);
      ghost var before := fast[..];
      FillFast(r, s, fastv);
      forall j | 0 <= j < ZFAST_SIZE ensures FastOk(lens, i + 1, j, fast[j]) {
        FastStep(lens, i, j, before[j], fast[j]);
      }
    }

    method FillFast(r: nat, s: nat, v: nat)
      requires Shaped() && Low(r, s) == r
      modifies fast
      ensures forall j :: 0 <= j < ZFAST_SIZE ==> fast[j] == if Low(j, s) == r then v else old(fast[j])
    {
      var j := r;
      FillStart(r, s);
      while j < ZFAST_SIZE
        invariant Low(j, s) == r
        invariant forall j' :: 0 <= j' < ZFAST_SIZE ==>
                    fast[j'] == if j' < j && Low(j', s) == r then v else old(fast[j'])
        modifies fast
      {
        fast[j] := v;
        FillNext(j, s);
        ShlOne(s);
        j := j + Shl(1, s);
      }
    }
  }

  lemma CountsStart(lens: seq<nat>)
    ensures forall s :: CountBelow(lens, 0, s) == 0
  {
  }

  lemma CountsStep(lens: seq<nat>, i: nat)
    requires i < |lens|
    ensures forall s :: CountBelow(lens, i + 1, s) == CountBelow(lens, i, s) + if s == lens[i] then 1 else 0
  {
  }

  lemma FastTarget(code: nat, s: nat)
    requires s <= 16
    ensures BitReverse(code, s) == Rev(code, s) && Low(Rev(code, s), s) == Rev(code, s)
  {
    BitReverseIsRev(code, s);
    RevBound(code, s);
    LowSmall(Rev(code, s), s);
  }

  lemma FillStart(r: nat, s: nat)
    requires Low(r, s) == r
    ensures forall j' :: 0 <= j' < r ==> Low(j', s) != r
  {
    LowBound(r, s);
    forall j' | 0 <= j' < r ensures Low(j', s) != r {
      LowSmall(j', s);
    }
  }

  lemma FillNext(j: nat, s: nat)
    ensures Low(j + Pow2(s), s) == Low(j, s)
    ensures forall j' :: j < j' < j + Pow2(s) ==> Low(j', s) != Low(j, s)
  {
    LowNext(j, s);
    forall j' | j < j' < j + Pow2(s) ensures Low(j', s) != Low(j, s) {
      LowGap(j, j', s);
    }
  }

  /** A symbol too long for the fast table, or unused, changes no entry. */
  lemma FastSkipped(lens: seq<nat>, i: nat)
    requires i < |lens| && !(1 <= lens[i] <= ZFAST_BITS)
    ensures forall j, v {:trigger FastOk(lens, i, j, v)} :: FastOk(lens, i, j, v) ==> FastOk(lens, i + 1, j, v)
  {
  }

  /** One entry of the fast table as symbol i is entered. */
  lemma FastStep(lens: seq<nat>, i: nat, j: nat, before: nat, after: nat)
    requires IsLengths(lens) && |lens| <= ZNSYMS && KraftHolds(lens)
    requires i < |lens| && 1 <= lens[i] <= ZFAST_BITS
    requires FastOk(lens, i, j, before)
    requires after == if Low(j, lens[i]) == Rev(CodeOf(lens, i), lens[i]) then BitOr(Shl(lens[i], 9), i) else before
    ensures FastOk(lens, i + 1, j, after)
  {
    var s := lens[i];
    RankBelow(lens, i);
    AllEndCodesFit(lens, s);
    MatchesByLow(CodeOf(lens, i), s, j);
    FastValue(s, i);
  }

  lemma FastValue(s: nat, i: nat)
    requires 1 <= s && i < ZFAST_SIZE
    ensures Low(BitOr(Shl(s, 9), i), 9) == i && Shr(BitOr(Shl(s, 9), i), 9) == s
    ensures BitOr(Shl(s, 9), i) > 0
  {
    PowNine();
    OrSwap(Shl(s, 9), i);
    OrDisjoint(i, s, 9);
    JoinParts(i, s, 9);
    ShlMono(1, s, 9);
    ShlOne(9);
  }

  lemma PowNine()
    ensures Pow2(9) == ZFAST_SIZE
  {
    assert Pow2(8) == 256;
  }
}
