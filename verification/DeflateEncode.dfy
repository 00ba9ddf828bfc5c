/** Packing literals and matches into a DEFLATE stream, and that decoding undoes it. */
module DeflateEncode {
  import opened Basics
  import opened Powers
  import opened Bits
  import opened BitStream
  import opened Canonical
  import opened InflateSpec
  import opened ZOutputs
  import opened Inflate

  /** A literal, or a match given by its length and distance symbols and their extra bits. */
  datatype Coded = Lit(b: Byte) | Copy(lsym: nat, lextra: nat, dsym: nat, dextra: nat)

  /** The codes can express the token. */
  predicate Codable(ll: seq<nat>, dl: seq<nat>, t: Coded) {
    match t
    case Lit(b) => b < |ll| && ll[b] > 0
    case Copy(lsym, lextra, dsym, dextra) =>
      && lsym < 29 && 257 + lsym < |ll| && ll[257 + lsym] > 0 && lextra < Pow2(LengthExtra(lsym))
      && dsym < 30 && dsym < |dl| && dl[dsym] > 0 && dextra < Pow2(DistExtra(dsym))
  }

  function Meaning(t: Coded): Token
    requires t.Copy? ==> t.lsym < 29 && t.dsym < 30
  {
    match t
    case Lit(b) => Literal(b)
    case Copy(lsym, lextra, dsym, dextra) => Match(LengthBase(lsym) + lextra, DistBase(dsym) + dextra)
  }

  /** A Huffman code, most significant bit first. */
  function CodeBits(lens: seq<nat>, i: nat): (bits: seq<nat>)
    requires i < |lens| && lens[i] > 0
    ensures |bits| == lens[i] && AllBits(bits)
  {
    seq(lens[i], k requires 0 <= k < lens[i] => Bit(CodeOf(lens, i), lens[i] - 1 - k))
  }

  /** Extra bits, least significant bit first. */
  function ExtraBits(v: nat, n: nat): (bits: seq<nat>)
    ensures |bits| == n && AllBits(bits)
  {
    seq(n, k requires 0 <= k < n => Bit(v, k))
  }

  function TokenBits(ll: seq<nat>, dl: seq<nat>, t: Coded): (bits: seq<nat>)
    requires Codable(ll, dl, t)
    ensures AllBits(bits)
  {
    match t
    case Lit(b) => CodeBits(ll, b)
    case Copy(lsym, lextra, dsym, dextra) =>
      CodeBits(ll, 257 + lsym) + ExtraBits(lextra, LengthExtra(lsym))
      + CodeBits(dl, dsym) + ExtraBits(dextra, DistExtra(dsym))
  }

  ghost predicate AllCodable(ll: seq<nat>, dl: seq<nat>, ts: seq<Coded>) {
    forall k :: 0 <= k < |ts| ==> Codable(ll, dl, ts[k])
  }

  /** The tokens of a block and its end marker. */
  ghost function BlockBits(ll: seq<nat>, dl: seq<nat>, ts: seq<Coded>): (bits: seq<nat>)
    requires AllCodable(ll, dl, ts) && |ll| > 256 && ll[256] > 0
    ensures AllBits(bits)
  {
    if ts == [] then CodeBits(ll, 256) else TokenBits(ll, dl, ts[0]) + BlockBits(ll, dl, ts[1..])
  }

  /** What the tokens expand to after `out`, if no match reaches before the start. */
  ghost function Expansion(out: seq<Byte>, ts: seq<Coded>): (r: Option<seq<Byte>>)
    requires forall k :: 0 <= k < |ts| ==> ts[k].Copy? ==> ts[k].lsym < 29 && ts[k].dsym < 30
    ensures r.Some? ==> out <= r.value
    decreases |ts|
  {
    if ts == [] then Some(out)
    else
      var t := Meaning(ts[0]);
      if Applies(t, out) then
        ApplyExtends(out, t);
        Expansion(Apply(out, t), ts[1..])
      else None
  }

  lemma ApplyExtends(out: seq<Byte>, t: Token)
    requires Applies(t, out)
    ensures out <= Apply(out, t)
  {
  }

  // ---- reading back what was packed ----

  ghost predicate BitsAt(data: seq<Byte>, c: nat, bits: seq<nat>) {
    forall k :: 0 <= k < |bits| ==> StreamBit(data, c + k) == bits[k]
  }

  lemma BitsSplit(data: seq<Byte>, c: nat, a: seq<nat>, b: seq<nat>)
    requires BitsAt(data, c, a + b)
    ensures BitsAt(data, c, a) && BitsAt(data, c + |a|, b)
  {
    forall k | 0 <= k < |a| ensures StreamBit(data, c + k) == a[k] {
      assert (a + b)[k] == a[k];
    }
    forall k | 0 <= k < |b| ensures StreamBit(data, c + |a| + k) == b[k] {
      assert (a + b)[|a| + k] == b[k];
      assert StreamBit(data, c + (|a| + k)) == b[k];
    }
  }

  lemma CodeReadBack(data: seq<Byte>, c: nat, lens: seq<nat>, i: nat)
    requires IsLengths(lens) && KraftHolds(lens) && i < |lens| && lens[i] > 0
    requires BitsAt(data, c, CodeBits(lens, i))
    ensures SymbolAt(lens, data, c) == i
  {
    hide SymbolAt, KraftHolds, EndCode, FirstCode, CountBelow;
    var s, code := lens[i], CodeOf(lens, i);
    CodeFits(lens, i);
    CodeBound(data, c, s);
    forall j | 0 <= j < s ensures Bit(CodeAt(data, c, s), j) == Bit(code, j) {
      RevWindow(data, c, s, s);
      RevBit(Window(data, c, s), s, j);
      WindowBit(data, c, s, s - 1 - j);
      assert CodeBits(lens, i)[s - 1 - j] == Bit(code, j);
    }
    SameBits(CodeAt(data, c, s), code, s);
    SymbolAtIs(lens, data, c, i);
  }

  lemma CodeFits(lens: seq<nat>, i: nat)
    requires IsLengths(lens) && KraftHolds(lens) && i < |lens| && lens[i] > 0
    ensures CodeOf(lens, i) < Pow2(lens[i])
  {
    RankBelow(lens, i);
    AllEndCodesFit(lens, lens[i]);
  }

  lemma ExtraReadBack(data: seq<Byte>, c: nat, v: nat, n: nat)
    requires v < Pow2(n) && BitsAt(data, c, ExtraBits(v, n))
    ensures Window(data, c, n) == v
  {
    WindowBound(data, c, n);
    forall k | 0 <= k < n ensures Bit(Window(data, c, n), k) == Bit(v, k) {
      WindowBit(data, c, n, k);
      assert ExtraBits(v, n)[k] == Bit(v, k);
    }
    SameBits(Window(data, c, n), v, n);
  }

  /** One packed token reads back as what it means. */
  lemma TokenReadBack(data: seq<Byte>, c: nat, ll: seq<nat>, dl: seq<nat>, t: Coded)
    requires UsableCodes(ll, dl) && Codable(ll, dl, t)
    requires BitsAt(data, c, TokenBits(ll, dl, t))
    ensures TokenAt(data, ll, dl, c) == Some((Meaning(t), c + |TokenBits(ll, dl, t)|))
  {
    hide SymbolAt, KraftHolds, BitsAt, Window, CodeBits, Pow2, AllBits;
    match t
    case Lit(b) =>
      CodeReadBack(data, c, ll, b);
    case Copy(_, _, _, _) =>
      CopyReadBack(data, c, ll, dl, t);
  }

  lemma CopyReadBack(data: seq<Byte>, c: nat, ll: seq<nat>, dl: seq<nat>, t: Coded)
    requires UsableCodes(ll, dl) && Codable(ll, dl, t) && t.Copy? && BitsAt(data, c, TokenBits(ll, dl, t))
    ensures TokenAt(data, ll, dl, c) == Some((Meaning(t), c + |TokenBits(ll, dl, t)|))
  {
    hide SymbolAt, KraftHolds, BitsAt, Window, LengthBase, LengthExtra, DistBase, DistExtra, CodeBits, ExtraBits, Pow2,
         AllBits, DistanceAt, UsableCodes;
    var Copy(lsym, lextra, dsym, dextra) := t;
    var b1, b2 := CodeBits(ll, 257 + lsym), ExtraBits(lextra, LengthExtra(lsym));
    var b3, b4 := CodeBits(dl, dsym), ExtraBits(dextra, DistExtra(dsym));
    CopySplit(data, c, b1, b2, b3, b4);
    LengthReadBack(data, c, ll, dl, lsym);
    ExtraReadBack(data, c + |b1|, lextra, LengthExtra(lsym));
    DistanceReadBack(data, c + |b1| + |b2|, ll, dl, dsym, dextra);
  }

  lemma CopySplit(data: seq<Byte>, c: nat, b1: seq<nat>, b2: seq<nat>, b3: seq<nat>, b4: seq<nat>)
    requires BitsAt(data, c, b1 + b2 + b3 + b4)
    ensures BitsAt(data, c, b1) && BitsAt(data, c + |b1|, b2)
    ensures BitsAt(data, c + |b1| + |b2|, b3) && BitsAt(data, c + |b1| + |b2| + |b3|, b4)
  {
    hide BitsAt;
    BitsSplit(data, c, b1 + b2 + b3, b4);
    BitsSplit(data, c, b1 + b2, b3);
    BitsSplit(data, c, b1, b2);
  }

  lemma LengthReadBack(data: seq<Byte>, c: nat, ll: seq<nat>, dl: seq<nat>, lsym: nat)
    requires UsableCodes(ll, dl) && 257 + lsym < |ll| && ll[257 + lsym] > 0
    requires BitsAt(data, c, CodeBits(ll, 257 + lsym))
    ensures SymbolAt(ll, data, c) == 257 + lsym
  {
    hide SymbolAt, KraftHolds, BitsAt, CodeBits;
    CodeReadBack(data, c, ll, 257 + lsym);
  }

  lemma DistanceReadBack(data: seq<Byte>, c: nat, ll: seq<nat>, dl: seq<nat>, dsym: nat, dextra: nat)
    requires UsableCodes(ll, dl) && dsym < 30 && dsym < |dl| && dl[dsym] > 0 && dextra < Pow2(DistExtra(dsym))
    requires BitsAt(data, c, CodeBits(dl, dsym))
    requires BitsAt(data, c + |CodeBits(dl, dsym)|, ExtraBits(dextra, DistExtra(dsym)))
    ensures DistanceAt(data, dl, c)
            == Some((DistBase(dsym) + dextra, c + |CodeBits(dl, dsym)| + |ExtraBits(dextra, DistExtra(dsym))|))
  {
    hide SymbolAt, KraftHolds, BitsAt, Window, DistBase, DistExtra, Pow2, AllBits;
    CodeReadBack(data, c, dl, dsym);
    ExtraReadBack(data, c + |CodeBits(dl, dsym)|, dextra, DistExtra(dsym));
  }

  lemma EndReadBack(data: seq<Byte>, c: nat, ll: seq<nat>, dl: seq<nat>)
    requires UsableCodes(ll, dl) && |ll| > 256 && ll[256] > 0
    requires BitsAt(data, c, CodeBits(ll, 256))
    ensures TokenAt(data, ll, dl, c) == Some((EndOfBlock, c + ll[256]))
  {
    CodeReadBack(data, c, ll, 256);
  }

  lemma MeaningSizes(t: Coded)
    requires t.Copy? ==> t.lsym < 29 && t.dsym < 30
    ensures TokenSize(Meaning(t)) >= 1
    ensures !Meaning(t).EndOfBlock?
    ensures Meaning(t).Match? ==> Meaning(t).length >= 3 && Meaning(t).dist >= 1
  {
  }

  /** A packed block decodes to the expansion of its tokens. */
  lemma {:induction false} BlockReadBack(data: seq<Byte>, c: nat, ll: seq<nat>, dl: seq<nat>, ts: seq<Coded>,
                                         out: seq<Byte>)
    requires UsableCodes(ll, dl) && |ll| > 256 && ll[256] > 0 && AllCodable(ll, dl, ts)
    requires BitsAt(data, c, BlockBits(ll, dl, ts))
    requires Expansion(out, ts).Some? && |Expansion(out, ts).value| <= UINT_MAX
    ensures BlockBody(data, ll, dl, c, out) == Some((Expansion(out, ts).value, c + |BlockBits(ll, dl, ts)|))
    decreases |ts|
  {
    hide TokenAt, BlockBody, Meaning, TokenBits, Apply, BitsAt, UsableCodes, CodeBits;
    if ts == [] {
      EndReadBack(data, c, ll, dl);
      BodyStep(data, ll, dl, c, out, EndOfBlock, c + ll[256]);
      EndBits(ll);
    } else {
      var t, bits := ts[0], TokenBits(ll, dl, ts[0]);
      BitsSplit(data, c, bits, BlockBits(ll, dl, ts[1..]));
      TokenReadBack(data, c, ll, dl, t);
      MeaningSizes(t);
      BodyStep(data, ll, dl, c, out, Meaning(t), c + |bits|);
      BlockReadBack(data, c + |bits|, ll, dl, ts[1..], Apply(out, Meaning(t)));
    }
  }

  lemma EndBits(ll: seq<nat>)
    requires |ll| > 256 && ll[256] > 0
    ensures |CodeBits(ll, 256)| == ll[256]
  {
  }

  // ---- run-length coded code lengths ----

  /** The four kinds of code length symbols, with the lengths they repeat. */
  datatype Run = One(len: nat) | Previous(count: nat) | ShortZeros(count: nat) | LongZeros(count: nat)

  function RunSymbol(r: Run): nat {
    match r
    case One(len) => len
    case Previous(_) => 16
    case ShortZeros(_) => 17
    case LongZeros(_) => 18
  }

  predicate RunCodable(clens: seq<nat>, r: Run) {
    && (match r
        case One(len) => len < 16
        case Previous(count) => 3 <= count <= 6
        case ShortZeros(count) => 3 <= count <= 10
        case LongZeros(count) => 11 <= count <= 138)
    && RunSymbol(r) < |clens| && clens[RunSymbol(r)] > 0
  }

  /** The extra bits after the symbol: value and width. */
  function RunExtra(r: Run): (int, nat) {
    match r
    case One(_) => (0, 0)
    case Previous(count) => (count - 3, 2)
    case ShortZeros(count) => (count - 3, 3)
    case LongZeros(count) => (count - 11, 7)
  }

  function RunBits(clens: seq<nat>, r: Run): (bits: seq<nat>)
    requires RunCodable(clens, r)
    ensures AllBits(bits)
  {
    CodeBits(clens, RunSymbol(r)) + ExtraBits(RunExtra(r).0, RunExtra(r).1)
  }

  /** The lengths a run stands for after `sofar`. */
  function RunLengths(sofar: seq<nat>, r: Run): Option<seq<nat>> {
    match r
    case One(len) => Some([len])
    case Previous(count) => if sofar == [] then None else Some(Repeat(sofar[|sofar| - 1], count))
    case ShortZeros(count) => Some(Repeat(0, count))
    case LongZeros(count) => Some(Repeat(0, count))
  }

  function RunsExpansion(sofar: seq<nat>, rs: seq<Run>): (r: Option<seq<nat>>)
    ensures r.Some? ==> sofar <= r.value
    decreases |rs|
  {
    if rs == [] then Some(sofar)
    else
      match RunLengths(sofar, rs[0])
      case None => None
      case Some(run) => RunsExpansion(sofar + run, rs[1..])
  }

  ghost predicate AllRunsCodable(clens: seq<nat>, rs: seq<Run>) {
    forall k :: 0 <= k < |rs| ==> RunCodable(clens, rs[k])
  }

  ghost function RunsBits(clens: seq<nat>, rs: seq<Run>): (bits: seq<nat>)
    requires AllRunsCodable(clens, rs)
    ensures AllBits(bits)
  {
    if rs == [] then [] else RunBits(clens, rs[0]) + RunsBits(clens, rs[1..])
  }

  lemma RunReadBack(data: seq<Byte>, c: nat, clens: seq<nat>, sofar: seq<nat>, r: Run)
    requires IsLengths(clens) && KraftHolds(clens) && |clens| == 19 && RunCodable(clens, r)
    requires BitsAt(data, c, RunBits(clens, r))
    requires RunLengths(sofar, r).Some?
    ensures RunAt(data, clens, c, sofar) == Some((RunLengths(sofar, r).value, c + |RunBits(clens, r)|))
    ensures |RunLengths(sofar, r).value| >= 1
  {
    hide SymbolAt, KraftHolds, BitsAt, Window, CodeBits, ExtraBits, AllBits, Pow2;
    var sym := RunSymbol(r);
    var (extra, n) := RunExtra(r);
    BitsSplit(data, c, CodeBits(clens, sym), ExtraBits(extra, n));
    CodeReadBack(data, c, clens, sym);
    ExtraWidths();
    ExtraReadBack(data, c + clens[sym], extra, n);
  }

  lemma ExtraWidths()
    ensures Pow2(0) == 1 && Pow2(2) == 4 && Pow2(3) == 8 && Pow2(7) == 128
  {
  }

  /** Packed runs read back as their expansion, when it has exactly the announced number of lengths. */
  lemma {:induction false} RunsReadBack(data: seq<Byte>, c: nat, clens: seq<nat>, sofar: seq<nat>, rs: seq<Run>,
                                        total: nat)
    requires IsLengths(clens) && KraftHolds(clens) && |clens| == 19 && AllRunsCodable(clens, rs)
    requires BitsAt(data, c, RunsBits(clens, rs))
    requires RunsExpansion(sofar, rs).Some? && |RunsExpansion(sofar, rs).value| == total >= |sofar|
    ensures CodeLengths(data, clens, c, sofar, total) ==
            Some((RunsExpansion(sofar, rs).value, c + |RunsBits(clens, rs)|))
    decreases |rs|
  {
    hide CodeLengths, RunAt, KraftHolds, BitsAt, RunBits, RunLengths, RunCodable;
    if rs == [] {
      CodeLengthsDone(data, clens, c, sofar, total);
    } else {
      var bits := RunBits(clens, rs[0]);
      BitsSplit(data, c, bits, RunsBits(clens, rs[1..]));
      RunReadBack(data, c, clens, sofar, rs[0]);
      var run := RunLengths(sofar, rs[0]).value;
      assert |sofar + run| <= total;
      RunStep(data, clens, c, sofar, total);
      RunsReadBack(data, c + |bits|, clens, sofar + run, rs[1..], total);
    }
  }

  // ---- packing bits into bytes ----

  /** Up to eight bits as a byte, first bit least significant. */
  function PackByte(bits: seq<nat>): (b: nat)
    requires |bits| <= 8 && AllBits(bits)
    ensures b < Pow2(|bits|)
  {
    if bits == [] then 0 else bits[0] + 2 * PackByte(bits[1..])
  }

  predicate AllBits(bits: seq<nat>) {
    forall k :: 0 <= k < |bits| ==> bits[k] < 2
  }

  lemma {:induction false} PackByteBit(bits: seq<nat>, k: nat)
    requires |bits| <= 8 && AllBits(bits) && k < |bits|
    ensures Bit(PackByte(bits), k) == bits[k]
  {
    if k > 0 {
      PackByteBit(bits[1..], k - 1);
      BitOfDouble(PackByte(bits[1..]), bits[0], k);
    }
  }

  /** Bits into bytes; the last byte is padded with zeros. */
  function Pack(bits: seq<nat>): seq<Byte>
    requires AllBits(bits)
    decreases |bits|
  {
    if bits == [] then []
    else
      var n := if |bits| < 8 then |bits| else 8;
      Pow2Mono(n, 8);
      assert Pow2(8) == 256;
      [PackByte(bits[..n])] + Pack(bits[n..])
  }

  lemma {:induction false} PackReadBack(bits: seq<nat>)
    requires AllBits(bits)
    ensures BitsAt(Pack(bits), 0, bits) && |bits| <= 8 * |Pack(bits)|
    decreases |bits|
  {
    if bits != [] {
      var n := if |bits| < 8 then |bits| else 8;
      var rest := bits[n..];
      PackReadBack(rest);
      forall k | 0 <= k < |bits| ensures StreamBit(Pack(bits), k) == bits[k] {
        if k < n {
          PackByteBit(bits[..n], k);
        } else {
          assert n == 8 && StreamBit(Pack(rest), 0 + (k - 8)) == rest[k - 8];
          ShiftedByte(Pack(bits), Pack(rest), k);
        }
      }
    }
  }

  lemma ShiftedByte(data: seq<Byte>, rest: seq<Byte>, k: nat)
    requires |data| == |rest| + 1 && data[1..] == rest && k >= 8
    ensures StreamBit(data, k) == StreamBit(rest, k - 8)
  {
    assert k / 8 == (k - 8) / 8 + 1 && k % 8 == (k - 8) % 8;
    var p := (k - 8) / 8;
    if p < |rest| {
      assert data[p + 1] == data[1..][p];
    }
  }

  // ---- the fixed codes ----

  lemma OneMore(n: nat, w: nat)
    ensures n * w == (n - 1) * w + w
  {
  }

  /** One run of equal lengths adds its weight to the Kraft sum. */
  lemma {:induction false} KraftRun(lens: seq<nat>, from: nat, to: nat, len: nat, w: nat)
    requires IsLengths(lens) && from <= to <= |lens| && 1 <= len <= MAX_BITS && w == Pow2(MAX_BITS - len)
    requires forall k :: from <= k < to ==> lens[k] == len
    ensures Kraft(lens, to) == Kraft(lens, from) + (to - from) * w
  {
    if from < to {
      KraftRun(lens, from, to - 1, len, w);
      OneMore(to - from, w);
    }
  }

  lemma FixedCodesUsable()
    ensures UsableCodes(FixedLiteral(), FixedDistance())
  {
    hide Kraft;
    assert Pow2(7) == 128 && Pow2(6) == 64 && Pow2(8) == 256 && Pow2(10) == 4 * Pow2(8);
    assert Pow2(MAX_BITS) == 128 * Pow2(8) by { Pow2Add(7, 8); }
    var l, d := FixedLiteral(), FixedDistance();
    KraftNone(l);
    KraftRun(l, 0, 144, 8, 128);
    KraftRun(l, 144, 256, 9, 64);
    KraftRun(l, 256, 280, 7, 256);
    KraftRun(l, 280, 288, 8, 128);
    KraftNone(d);
    KraftRun(d, 0, 32, 5, 1024);
  }

  lemma KraftNone(lens: seq<nat>)
    requires IsLengths(lens)
    ensures Kraft(lens, 0) == 0
  {
  }
}
