/** Whole zlib streams of stored, fixed and dynamic blocks, and that decoding undoes writing them. */
module DeflateStream {
  import opened Basics
  import opened Powers
  import opened Bits
  import opened BitStream
  import opened Canonical
  import opened InflateSpec
  import opened ZOutputs
  import opened Inflate
  import opened DeflateEncode

  /** What an encoder decides about one block. A dynamic block brings its code length code and runs. */
  datatype Block =
    | Stored(bytes: seq<Byte>)
    | Fixed(ts: seq<Coded>)
    | Dynamic(clens: seq<nat>, hclen: nat, runs: seq<Run>, hlit: nat, hdist: nat, ts: seq<Coded>)

  // ---- the order of the code length code ----

  function Zigzag(j: nat): (i: nat)
    requires j < 19
    ensures i < 19
  {
    [3, 17, 15, 13, 11, 9, 7, 5, 4, 6, 8, 10, 12, 14, 16, 18, 0, 1, 2][j]
  }

  lemma ZigzagInverse(i: nat, j: nat)
    requires i < 19 && j < 19
    ensures Dezigzag(i) == j <==> Zigzag(j) == i
  {
  }

  // ---- blocks that can be written ----

  /** Both alphabets' code lengths, as the runs spell them. */
  function Lengths(b: Block): Option<seq<nat>>
    requires b.Dynamic?
  {
    RunsExpansion([], b.runs)
  }

  ghost predicate HeaderGood(b: Block)
    requires b.Dynamic?
  {
    && 4 <= b.hclen <= 19 && |b.clens| == 19 && KraftOf(b.clens)
    && (forall j :: 0 <= j < 19 ==> b.clens[j] < 8 && (Zigzag(j) >= b.hclen ==> b.clens[j] == 0))
    && 257 <= b.hlit <= 288 && 1 <= b.hdist <= 32
    && AllRunsCodable(b.clens, b.runs)
    && Lengths(b).Some? && |Lengths(b).value| == b.hlit + b.hdist
  }

  ghost predicate KraftOf(lens: seq<nat>) {
    IsLengths(lens) && KraftHolds(lens)
  }

  ghost function Literals(b: Block): seq<nat>
    requires !b.Stored? && (b.Dynamic? ==> HeaderGood(b))
  {
    if b.Fixed? then FixedLiteral() else Lengths(b).value[..b.hlit]
  }

  ghost function Distances(b: Block): seq<nat>
    requires !b.Stored? && (b.Dynamic? ==> HeaderGood(b))
  {
    if b.Fixed? then FixedDistance() else Lengths(b).value[b.hlit..]
  }

  ghost predicate Good(b: Block) {
    if b.Stored? then |b.bytes| < 0x1_0000
    else
      && (b.Dynamic? ==> HeaderGood(b))
      && UsableCodes(Literals(b), Distances(b))
      && |Literals(b)| > 256 && Literals(b)[256] > 0
      && AllCodable(Literals(b), Distances(b), b.ts)
  }

  // ---- their bits ----

  /** Zeros up to the next byte boundary. */
  function Padding(c: nat): (bits: seq<nat>)
    ensures |bits| < 8 && (c + |bits|) % 8 == 0 && AllBits(bits)
  {
    Repeat(0, (8 - c % 8) % 8)
  }

  function ByteBits(bytes: seq<Byte>): (bits: seq<nat>)
    ensures |bits| == 8 * |bytes| && AllBits(bits)
  {
    if bytes == [] then [] else ExtraBits(bytes[0], 8) + ByteBits(bytes[1..])
  }

  function SizesBits(clens: seq<nat>, n: nat): (bits: seq<nat>)
    requires |clens| == 19 && n <= 19
    ensures |bits| == 3 * n && AllBits(bits)
  {
    if n == 0 then [] else SizesBits(clens, n - 1) + ExtraBits(clens[Dezigzag(n - 1)], 3)
  }

  ghost function HeaderBits(b: Block): (bits: seq<nat>)
    requires b.Dynamic? && HeaderGood(b)
    ensures AllBits(bits)
  {
    ExtraBits(b.hlit - 257, 5) + (ExtraBits(b.hdist - 1, 5) + (ExtraBits(b.hclen - 4, 4)
    + (SizesBits(b.clens, b.hclen) + RunsBits(b.clens, b.runs))))
  }

  /** LEN, NLEN and the bytes of a stored block. */
  function StoredBody(bytes: seq<Byte>): (bits: seq<nat>)
    requires |bytes| < 0x1_0000
    ensures AllBits(bits) && |bits| == 32 + 8 * |bytes|
  {
    ExtraBits(|bytes|, 16) + (ExtraBits(0xFFFF - |bytes|, 16) + ByteBits(bytes))
  }

  function StoredBits(bytes: seq<Byte>, c: nat): (bits: seq<nat>)
    requires |bytes| < 0x1_0000
    ensures AllBits(bits) && |bits| == |Padding(c)| + 32 + 8 * |bytes|
  {
    Padding(c) + StoredBody(bytes)
  }

  /** A block behind its three header bits, which end at bit c. */
  ghost function BodyBits(b: Block, c: nat): (bits: seq<nat>)
    requires Good(b)
    ensures AllBits(bits)
  {
    hide StoredBits, BlockBits, HeaderBits, HeaderGood, UsableCodes, AllCodable, Literals, Distances, AllBits;
    match b
    case Stored(bytes) => StoredBits(bytes, c)
    case Fixed(ts) => BlockBits(Literals(b), Distances(b), ts)
    case Dynamic(_, _, _, _, _, ts) =>
      Concatenated(HeaderBits(b), BlockBits(Literals(b), Distances(b), ts));
      HeaderBits(b) + BlockBits(Literals(b), Distances(b), ts)
  }

  lemma Concatenated(a: seq<nat>, b: seq<nat>)
    requires AllBits(a) && AllBits(b)
    ensures AllBits(a + b)
  {
  }

  function Kind(b: Block): nat {
    match b
    case Stored(_) => 0
    case Fixed(_) => 1
    case Dynamic(_, _, _, _, _, _) => 2
  }

  function StartBits(final: bool, b: Block): (bits: seq<nat>)
    ensures |bits| == 3 && AllBits(bits)
  {
    [if final then 1 else 0] + ExtraBits(Kind(b), 2)
  }

  ghost predicate AllGood(bs: seq<Block>) {
    bs != [] && forall k :: 0 <= k < |bs| ==> Good(bs[k])
  }

  /** Blocks from bit c on, the last one marked final. */
  ghost function StreamBits(bs: seq<Block>, c: nat): (bits: seq<nat>)
    requires AllGood(bs)
    ensures AllBits(bits) && |bits| >= 3
    decreases |bs|
  {
    hide StartBits, BodyBits, Good, AllBits;
    Concatenated(StartBits(|bs| == 1, bs[0]), BodyBits(bs[0], c + 3));
    var head := StartBits(|bs| == 1, bs[0]) + BodyBits(bs[0], c + 3);
    if |bs| == 1 then head
    else
      Concatenated(head, StreamBits(bs[1..], c + |head|));
      head + StreamBits(bs[1..], c + |head|)
  }

  // ---- data that carries them ----

  /** The data has the block behind its header bits, which end at c; bits skipped before a boundary are free. */
  ghost predicate BodyAt(data: seq<Byte>, c: nat, b: Block)
    requires Good(b)
  {
    if b.Stored? then BitsAt(data, c + |Padding(c)|, StoredBody(b.bytes)) else BitsAt(data, c, BodyBits(b, c))
  }

  /** The data has the blocks one behind the other from bit c on. */
  ghost predicate StreamAt(data: seq<Byte>, c: nat, bs: seq<Block>)
    requires AllGood(bs)
    decreases |bs|
  {
    && BitsAt(data, c, StartBits(|bs| == 1, bs[0]))
    && BodyAt(data, c + 3, bs[0])
    && (|bs| > 1 ==> StreamAt(data, c + 3 + |BodyBits(bs[0], c + 3)|, bs[1..]))
  }

  /** The bits of the blocks are one way to carry them. */
  lemma {:induction false} BitsCarry(data: seq<Byte>, c: nat, bs: seq<Block>)
    requires AllGood(bs) && BitsAt(data, c, StreamBits(bs, c))
    ensures StreamAt(data, c, bs)
    decreases |bs|
  {
    hide BitsAt, BodyBits, StartBits, Good, BodyAt, AllBits;
    var start, body := StartBits(|bs| == 1, bs[0]), BodyBits(bs[0], c + 3);
    if |bs| > 1 {
      BitsSplit(data, c, start + body, StreamBits(bs[1..], c + |start + body|));
      BitsCarry(data, c + |start + body|, bs[1..]);
    }
    BitsSplit(data, c, start, body);
    BodyCarry(data, c + 3, bs[0]);
  }

  lemma BodyCarry(data: seq<Byte>, c: nat, b: Block)
    requires Good(b) && BitsAt(data, c, BodyBits(b, c))
    ensures BodyAt(data, c, b)
  {
    hide BitsAt, StoredBody, Padding, Good, AllBits;
    if b.Stored? {
      StoredIsGood(b);
      BitsSplit(data, c, Padding(c), StoredBody(b.bytes));
    }
  }

  lemma StoredIsGood(b: Block)
    requires Good(b) && b.Stored?
    ensures |b.bytes| < 0x1_0000
  {
  }

  // ---- their meaning ----

  ghost function BlockOutput(b: Block, out: seq<Byte>): (r: Option<seq<Byte>>)
    requires Good(b)
    ensures r.Some? ==> out <= r.value
  {
    if b.Stored? then Some(out + b.bytes) else Codables(b); Expansion(out, b.ts)
  }

  lemma Codables(b: Block)
    requires Good(b) && !b.Stored?
    ensures forall k :: 0 <= k < |b.ts| ==> b.ts[k].Copy? ==> b.ts[k].lsym < 29 && b.ts[k].dsym < 30
  {
    forall k | 0 <= k < |b.ts| ensures b.ts[k].Copy? ==> b.ts[k].lsym < 29 && b.ts[k].dsym < 30 {
      assert Codable(Literals(b), Distances(b), b.ts[k]);
    }
  }

  ghost function Output(bs: seq<Block>, out: seq<Byte>): (r: Option<seq<Byte>>)
    requires AllGood(bs)
    ensures r.Some? ==> out <= r.value
    decreases |bs|
  {
    var one := BlockOutput(bs[0], out);
    if one.None? || |bs| == 1 then one else Output(bs[1..], one.value)
  }

  // ---- reading stored blocks back ----

  lemma Le16Is(data: seq<Byte>, p: nat)
    ensures Le16(data, p) == Window(data, 8 * p, 16)
  {
    hide Window;
    WindowJoin(data, 8 * p, 8, 8);
    WindowByte(data, p);
    WindowByte(data, p + 1);
    ShlEight(ByteAt(data, p + 1));
  }

  lemma ShlEight(n: nat)
    ensures Shl(n, 8) == 256 * n
  {
    assert Shl(n, 0) == n;
    assert Shl(n, 1) == 2 * n;
    assert Shl(n, 2) == 4 * n;
    assert Shl(n, 3) == 8 * n;
    assert Shl(n, 4) == 16 * n;
    assert Shl(n, 5) == 32 * n;
    assert Shl(n, 6) == 64 * n;
    assert Shl(n, 7) == 128 * n;
  }

  lemma {:induction false} BytesReadBack(data: seq<Byte>, p: nat, bytes: seq<Byte>)
    requires BitsAt(data, 8 * p, ByteBits(bytes)) && p + |bytes| <= |data|
    ensures data[p..p + |bytes|] == bytes
    decreases |bytes|
  {
    hide BitsAt, ExtraBits, Window;
    if bytes != [] {
      BitsSplit(data, 8 * p, ExtraBits(bytes[0], 8), ByteBits(bytes[1..]));
      assert Pow2(8) == 256;
      ExtraReadBack(data, 8 * p, bytes[0], 8);
      WindowByte(data, p);
      BytesReadBack(data, p + 1, bytes[1..]);
      var n := |bytes|;
      assert data[p..p + n] == [data[p]] + data[p + 1..p + 1 + (n - 1)];
    }
  }

  lemma Sixteen()
    ensures Pow2(16) == 0x1_0000
  {
    Pow2Add(8, 8);
    assert Pow2(8) == 256;
  }

  lemma Boundary(c: nat)
    ensures c + |Padding(c)| == 8 * ((c + 7) / 8)
  {
    var k := |Padding(c)|;
    assert (c + k) / 8 == (c + 7) / 8;
  }

  /** A stored block at any bit alignment reads back as its bytes, whatever bits stand before the boundary. */
  lemma StoredReadBack(data: seq<Byte>, c: nat, bytes: seq<Byte>)
    requires |bytes| < 0x1_0000 && BitsAt(data, c + |Padding(c)|, StoredBody(bytes))
    requires c + |StoredBits(bytes, c)| <= 8 * |data|
    ensures StoredBlock(data, c) == Some((bytes, c + |StoredBits(bytes, c)|))
  {
    hide BitsAt, ExtraBits, Window, ByteBits, Padding, Le16;
    var p, n := (c + 7) / 8, |bytes|;
    var len, nlen, body := ExtraBits(n, 16), ExtraBits(0xFFFF - n, 16), ByteBits(bytes);
    Boundary(c);
    BitsSplit(data, 8 * p, len, nlen + body);
    BitsSplit(data, 8 * p + 16, nlen, body);
    Sixteen();
    ExtraReadBack(data, 8 * p, n, 16);
    ExtraReadBack(data, 8 * p + 16, 0xFFFF - n, 16);
    Le16Is(data, p);
    Le16Is(data, p + 2);
    assert 8 * (p + 2) == 8 * p + 16 && 8 * (p + 4) == 8 * p + 32;
    BytesReadBack(data, p + 4, bytes);
  }

  // ---- reading dynamic headers back ----

  /** The code length code as far as n entries tell it. */
  function Partial(clens: seq<nat>, n: nat): (s: seq<nat>)
    requires |clens| == 19 && n <= 19
    ensures |s| == 19 && forall j :: 0 <= j < 19 ==> s[j] == if Zigzag(j) < n then clens[j] else 0
  {
    hide Zigzag, Dezigzag;
    if n == 0 then seq(19, _ => 0)
    else
      ZigzagAll(n - 1);
      Partial(clens, n - 1)[Dezigzag(n - 1) := clens[Dezigzag(n - 1)]]
  }

  lemma ZigzagAll(i: nat)
    requires i < 19
    ensures forall j :: 0 <= j < 19 ==> (Zigzag(j) == i <==> j == Dezigzag(i))
  {
    hide Zigzag, Dezigzag;
    forall j | 0 <= j < 19 ensures Zigzag(j) == i <==> j == Dezigzag(i) {
      ZigzagInverse(i, j);
    }
  }

  lemma {:induction false} SizesReadBack(data: seq<Byte>, c: nat, clens: seq<nat>, n: nat)
    requires |clens| == 19 && n <= 19 && forall j :: 0 <= j < 19 ==> clens[j] < 8
    requires BitsAt(data, c, SizesBits(clens, n))
    ensures CodeLengthSizes(data, c, n) == Partial(clens, n)
    decreases n
  {
    hide BitsAt, ExtraBits, Window, Dezigzag, Zigzag;
    if n > 0 {
      BitsSplit(data, c, SizesBits(clens, n - 1), ExtraBits(clens[Dezigzag(n - 1)], 3));
      SizesReadBack(data, c, clens, n - 1);
      ExtraWidths();
      ExtraReadBack(data, c + 3 * (n - 1), clens[Dezigzag(n - 1)], 3);
    }
  }

  lemma PartialIsAll(b: Block)
    requires b.Dynamic? && HeaderGood(b)
    ensures Partial(b.clens, b.hclen) == b.clens
  {
    hide Zigzag, Partial, KraftOf, AllRunsCodable, RunsExpansion;
  }

  /** A written dynamic header reads back as the two code length lists it stands for. */
  lemma DynamicReadBack(data: seq<Byte>, c: nat, b: Block)
    requires b.Dynamic? && HeaderGood(b) && BitsAt(data, c, HeaderBits(b))
    ensures DynamicCodes(data, c) == Some((Literals(b), Distances(b), c + |HeaderBits(b)|))
  {
    hide BitsAt, ExtraBits, Window, CodeLengths, CodeLengthSizes, SizesBits, RunsBits, AllRunsCodable, RunsExpansion,
         Pow2, KraftHolds, IsLengths, Partial, Zigzag;
    var n := b.hclen;
    var b1, b2, b3 := ExtraBits(b.hlit - 257, 5), ExtraBits(b.hdist - 1, 5), ExtraBits(n - 4, 4);
    var b4, b5 := SizesBits(b.clens, n), RunsBits(b.clens, b.runs);
    BitsSplit(data, c, b1, b2 + (b3 + (b4 + b5)));
    BitsSplit(data, c + 5, b2, b3 + (b4 + b5));
    BitsSplit(data, c + 10, b3, b4 + b5);
    BitsSplit(data, c + 14, b4, b5);
    HeaderWidths();
    ExtraReadBack(data, c, b.hlit - 257, 5);
    ExtraReadBack(data, c + 5, b.hdist - 1, 5);
    ExtraReadBack(data, c + 10, n - 4, 4);
    SizesReadBack(data, c + 14, b.clens, n);
    PartialIsAll(b);
    RunsReadBack(data, c + 14 + 3 * n, b.clens, [], b.runs, b.hlit + b.hdist);
  }

  lemma HeaderWidths()
    ensures Pow2(5) == 32 && Pow2(4) == 16 && Pow2(2) == 4
  {
  }

  // ---- more literal codes than section 3.2.7 allows ----

  /** An accepted dynamic header is within the RFC exactly when it announces at most 286 literal and length codes. */
  lemma CountsWithinRfc(data: seq<Byte>, c: nat)
    requires DynamicCodes(data, c).Some?
    ensures var (ll, dl, _) := DynamicCodes(data, c).value;
            && |ll| == 257 + Window(data, c, 5) <= 288 && 1 <= |dl| <= 32
            && (257 <= |ll| <= 286 <==> Window(data, c, 5) <= 29)
  {
    hide Window, CodeLengths, CodeLengthSizes, KraftHolds;
    HeaderBounds(data, c);
  }

  /** 289 lengths of nine: 288 literal and length codes and one distance code. */
  function TooManyLiterals(): Block {
    Dynamic(seq(19, i => if i == 9 || i == 16 then 1 else 0), 7, [One(9)] + Sixes(48), 288, 1, [])
  }

  function Sixes(n: nat): (rs: seq<Run>)
    ensures |rs| == n && forall i :: 0 <= i < n ==> rs[i] == Previous(6)
  {
    seq(n, _ => Previous(6))
  }

  lemma {:induction false} SixesExpand(sofar: seq<nat>, n: nat)
    requires sofar != [] && forall i :: 0 <= i < |sofar| ==> sofar[i] == 9
    ensures RunsExpansion(sofar, Sixes(n)).Some?
    ensures var all := RunsExpansion(sofar, Sixes(n)).value;
            |all| == |sofar| + 6 * n && forall i :: 0 <= i < |all| ==> all[i] == 9
    decreases n
  {
    if n > 0 {
      assert Sixes(n)[1..] == Sixes(n - 1);
      SixesExpand(sofar + Repeat(9, 6), n - 1);
    }
  }

  lemma {:induction false} KraftZeros(lens: seq<nat>, from: nat, to: nat)
    requires IsLengths(lens) && from <= to <= |lens| && forall k :: from <= k < to ==> lens[k] == 0
    ensures Kraft(lens, to) == Kraft(lens, from)
  {
    if from < to {
      KraftZeros(lens, from, to - 1);
    }
  }

  lemma TwoCodesUsable(clens: seq<nat>)
    requires |clens| == 19 && forall i :: 0 <= i < 19 ==> clens[i] == if i == 9 || i == 16 then 1 else 0
    ensures KraftOf(clens)
  {
    hide Kraft;
    KraftNone(clens);
    KraftZeros(clens, 0, 9);
    KraftRun(clens, 9, 10, 1, Pow2(14));
    KraftZeros(clens, 10, 16);
    KraftRun(clens, 16, 17, 1, Pow2(14));
    KraftZeros(clens, 17, 19);
    assert Pow2(15) == 2 * Pow2(14);
  }

  lemma NinesUsable(lens: seq<nat>)
    requires |lens| <= 288 && forall i :: 0 <= i < |lens| ==> lens[i] == 9
    ensures KraftOf(lens)
  {
    hide Kraft;
    KraftNone(lens);
    assert Pow2(6) == 64;
    assert Pow2(15) == 128 * Pow2(8) && Pow2(8) == 256 by {
      Pow2Add(7, 8);
      assert Pow2(7) == 128;
    }
    KraftRun(lens, 0, |lens|, 9, 64);
  }

  /** The decoder accepts such a header. */
  lemma TooManyLiteralsAccepted(data: seq<Byte>, c: nat)
    ensures Good(TooManyLiterals()) && TooManyLiterals().hlit > 286
    ensures BitsAt(data, c, HeaderBits(TooManyLiterals())) ==> DynamicCodes(data, c).Some?
  {
    hide BitsAt, HeaderBits, KraftHolds, Kraft, RunsExpansion, Zigzag, IsLengths;
    var b := TooManyLiterals();
    TwoCodesUsable(b.clens);
    assert b.runs[0] == One(9) && b.runs[1..] == Sixes(48);
    FirstRun(b.runs);
    SixesExpand([9], 48);
    ZigzagAll(0);
    ZigzagNine();
    var lengths := Lengths(b).value;
    NinesUsable(lengths[..288]);
    NinesUsable(lengths[288..]);
    if BitsAt(data, c, HeaderBits(b)) {
      DynamicReadBack(data, c, b);
    }
  }

  lemma FirstRun(rs: seq<Run>)
    requires rs != [] && rs[0] == One(9)
    ensures RunsExpansion([], rs) == RunsExpansion([9], rs[1..])
  {
    assert [] + [9] == [9];
  }

  lemma ZigzagNine()
    ensures Zigzag(9) == 6 && Zigzag(16) == 0
  {
  }

  // ---- reading blocks and streams back ----

  lemma StartReadBack(data: seq<Byte>, c: nat, final: bool, b: Block)
    requires BitsAt(data, c, StartBits(final, b))
    ensures Window(data, c, 1) == (if final then 1 else 0) && Window(data, c + 1, 2) == Kind(b)
  {
    hide BitsAt, ExtraBits, Pow2;
    BitsSplit(data, c, [if final then 1 else 0], ExtraBits(Kind(b), 2));
    OneBit(data, c, if final then 1 else 0);
    HeaderWidths();
    ExtraReadBack(data, c + 1, Kind(b), 2);
  }

  lemma OneBit(data: seq<Byte>, c: nat, v: nat)
    requires BitsAt(data, c, [v])
    ensures Window(data, c, 1) == v
  {
    assert StreamBit(data, c + 0) == [v][0];
    assert Window(data, c, 1) == StreamBit(data, c) + 2 * Window(data, c + 1, 0);
  }

  lemma BodyReadBack(data: seq<Byte>, c: nat, b: Block, out: seq<Byte>)
    requires Good(b) && BodyAt(data, c, b) && c + |BodyBits(b, c)| <= 8 * |data|
    requires BlockOutput(b, out).Some? && |BlockOutput(b, out).value| <= UINT_MAX
    ensures BlockOfType(data, Kind(b), c, out) == Some((BlockOutput(b, out).value, c + |BodyBits(b, c)|))
  {
    hide BitsAt, StoredBlock, StoredBits, DynamicCodes, HeaderGood, HeaderBits, UsableCodes, AllCodable, BlockBits,
         BlockBody, Expansion, FixedLiteral, FixedDistance, Literals, Distances;
    match b
    case Stored(bytes) => StoredReadBack(data, c, bytes);
    case Fixed(ts) =>
      FixedIs(b);
      BlockReadBack(data, c, Literals(b), Distances(b), ts, out);
    case Dynamic(_, _, _, _, _, ts) =>
      var head := HeaderBits(b);
      BitsSplit(data, c, head, BlockBits(Literals(b), Distances(b), ts));
      DynamicReadBack(data, c, b);
      BlockReadBack(data, c + |head|, Literals(b), Distances(b), ts, out);
  }

  lemma FixedIs(b: Block)
    requires b.Fixed?
    ensures Literals(b) == FixedLiteral() && Distances(b) == FixedDistance()
  {
  }

  /** Written blocks decode to what they stand for, and the decoder stops where they end. */
  lemma {:induction false} StreamReadBack(data: seq<Byte>, c: nat, bs: seq<Block>, out: seq<Byte>)
    requires AllGood(bs) && StreamAt(data, c, bs) && c + |StreamBits(bs, c)| <= 8 * |data|
    requires Output(bs, out).Some? && |Output(bs, out).value| <= UINT_MAX
    ensures Blocks(data, c, out) == Some((Output(bs, out).value, c + |StreamBits(bs, c)|))
    decreases |bs|
  {
    hide BitsAt, Window, BodyBits, StartBits, BlockOutput, BlockOfType, Blocks, Good, Kind, BodyAt;
    var b := bs[0];
    var head := StartBits(|bs| == 1, b) + BodyBits(b, c + 3);
    var one := BlockOutput(b, out).value;
    StartReadBack(data, c, |bs| == 1, b);
    BodyReadBack(data, c + 3, b, out);
    BlocksStep(data, c, out, 0);
    if |bs| > 1 {
      StreamReadBack(data, c + |head|, bs[1..], one);
    }
  }

  // ---- whole files ----

  /** A raw stream, or a zlib stream with any legal header; what stands behind the blocks is free. */
  ghost predicate Carries(data: seq<Byte>, bs: seq<Block>, header: bool)
    requires AllGood(bs)
  {
    var c := if header then 16 else 0;
    (header ==> Rfc1950Header(data)) && StreamAt(data, c, bs) && c + |StreamBits(bs, c)| <= 8 * |data|
  }

  /** Every stream that carries good blocks decodes to what they stand for, within the data. */
  lemma ZlibRoundTrip(data: seq<Byte>, bs: seq<Block>, header: bool)
    requires AllGood(bs) && Carries(data, bs, header)
    requires Output(bs, []).Some? && |Output(bs, []).value| <= UINT_MAX
    ensures var r := Zlib(data, header);
            r.Some? && r.value.0 == Output(bs, []).value && r.value.1 <= 8 * |data|
  {
    hide StreamAt, StreamBits, Output, AllGood, Blocks, Rfc1950Header, ZlibHeader;
    HeaderAccepted(data);
    StreamReadBack(data, if header then 16 else 0, bs, []);
  }

  /** The decoder as the program runs it undoes every encoder. */
  method DecodeStream(ghost bs: seq<Block>, data: seq<Byte>, initialSize: nat, header: bool)
    returns (ok: bool, out: seq<Byte>)
    requires 1 <= initialSize <= UINT_MAX
    requires AllGood(bs) && Carries(data, bs, header)
    requires Output(bs, []).Some? && |Output(bs, []).value| <= Grown(initialSize)
    ensures ok && out == Output(bs, []).value
  {
    hide Zlib, Carries, Output, AllGood;
    ZlibRoundTrip(data, bs, header);
    ok, out := DoZlib(data, initialSize, true, header);
  }

  /** Blocks packed between a header and a trailer. */
  ghost function ZlibStream(front: seq<Byte>, bs: seq<Block>, trailer: seq<Byte>): seq<Byte>
    requires AllGood(bs)
  {
    front + Pack(StreamBits(bs, 8 * |front|)) + trailer
  }

  /** Such a file carries its blocks: with any legal header and any trailer, such as a checksum. */
  lemma StreamCarried(front: seq<Byte>, bs: seq<Block>, trailer: seq<Byte>)
    requires AllGood(bs) && (front == [] || (|front| == 2 && Rfc1950Header(front)))
    ensures Carries(ZlibStream(front, bs, trailer), bs, front != [])
  {
    hide StreamAt, StreamBits, AllGood, Pack, BitsAt, Rfc1950Header;
    var bits := StreamBits(bs, 8 * |front|);
    PackReadBack(bits);
    BitsInside(front, Pack(bits), trailer, bits);
    BitsCarry(ZlibStream(front, bs, trailer), 8 * |front|, bs);
    if front != [] {
      HeaderKept(front, Pack(bits) + trailer);
      assert front + (Pack(bits) + trailer) == ZlibStream(front, bs, trailer);
    }
  }

  lemma HeaderKept(front: seq<Byte>, rest: seq<Byte>)
    requires |front| == 2 && Rfc1950Header(front)
    ensures Rfc1950Header(front + rest)
  {
    var cinfo: nat, flevel: nat, fcheck: nat :|
      cinfo <= 7 && flevel <= 3 && fcheck <= 31 && LaidOut(front, cinfo, flevel, fcheck);
    assert LaidOut(front + rest, cinfo, flevel, fcheck);
  }

  /** Bytes before and behind do not change the bits between them. */
  lemma BitsInside(front: seq<Byte>, mid: seq<Byte>, back: seq<Byte>, bits: seq<nat>)
    requires BitsAt(mid, 0, bits) && |bits| <= 8 * |mid|
    ensures BitsAt(front + mid + back, 8 * |front|, bits)
  {
    var all := front + mid + back;
    forall k | 0 <= k < |bits| ensures StreamBit(all, 8 * |front| + k) == bits[k] {
      assert StreamBit(mid, 0 + k) == bits[k];
      InByte(|front| + k / 8, k % 8);
      assert all[|front| + k / 8] == mid[k / 8];
    }
  }
}
