/** What a DEFLATE stream means: sections 3.2.3 to 3.2.7 of RFC 1951, over the zero-extended data. */
module InflateSpec {
  import opened Basics
  import opened Powers
  import opened Bits
  import opened BitStream
  import opened Canonical

  /** The one symbol whose code the stream spells at c, or -1. */
  ghost function SymbolAt(lens: seq<nat>, data: seq<Byte>, c: nat): (i: int)
    ensures -1 <= i < |lens|
    ensures i >= 0 ==> Spells(lens, data, c, i)
    ensures i < 0 ==> forall j: nat :: !Spells(lens, data, c, j)
  {
    if j: nat :| Spells(lens, data, c, j) then j else -1
  }

  lemma SymbolAtIs(lens: seq<nat>, data: seq<Byte>, c: nat, i: nat)
    requires Spells(lens, data, c, i)
    ensures SymbolAt(lens, data, c) == i
  {
    PrefixFree(lens, data, c, i, SymbolAt(lens, data, c));
  }

  // ---- literals and matches ----

  datatype Token = Literal(b: Byte) | Match(length: nat, dist: nat) | EndOfBlock

  function LengthBase(i: nat): (n: nat)
    requires i < 29
    ensures n >= 3
  {
    [3, 4, 5, 6, 7, 8, 9, 10, 11, 13, 15, 17, 19, 23, 27, 31, 35, 43, 51, 59, 67, 83, 99, 115, 131, 163, 195, 227,
     258][i]
  }

  function LengthExtra(i: nat): (n: nat)
    requires i < 29
    ensures n <= 5
  {
    [0, 0, 0, 0, 0, 0, 0, 0, 1, 1, 1, 1, 2, 2, 2, 2, 3, 3, 3, 3, 4, 4, 4, 4, 5, 5, 5, 5, 0][i]
  }

  function DistBase(i: nat): (n: nat)
    requires i < 30
    ensures n >= 1
  {
    [1, 2, 3, 4, 5, 7, 9, 13, 17, 25, 33, 49, 65, 97, 129, 193, 257, 385, 513, 769, 1025, 1537, 2049, 3073, 4097,
     6145, 8193, 12289, 16385, 24577][i]
  }

  function DistExtra(i: nat): (n: nat)
    requires i < 30
    ensures n <= 13
  {
    [0, 0, 0, 0, 1, 1, 2, 2, 3, 3, 4, 4, 5, 5, 6, 6, 7, 7, 8, 8, 9, 9, 10, 10, 11, 11, 12, 12, 13, 13][i]
  }

  /** A base value plus its extra bits (section 3.2.5). */
  function Extended(data: seq<Byte>, c: nat, base: nat, extra: nat): nat {
    base + Window(data, c, extra)
  }

  /** The distance half of a match, at c. */
  ghost function DistanceAt(data: seq<Byte>, distLens: seq<nat>, c: nat): Option<(nat, nat)> {
    var d := SymbolAt(distLens, data, c);
    if d < 0 || d >= 30 then None
    else
      var c' := c + distLens[d];
      Some((Extended(data, c', DistBase(d), DistExtra(d)), c' + DistExtra(d)))
  }

  /** The token at c and where it ends. */
  ghost function TokenAt(data: seq<Byte>, litLens: seq<nat>, distLens: seq<nat>, c: nat): Option<(Token, nat)> {
    var z := SymbolAt(litLens, data, c);
    if z < 0 || z >= 286 then None
    else
      var c1 := c + litLens[z];
      if z < 256 then Some((Literal(z), c1))
      else if z == 256 then Some((EndOfBlock, c1))
      else
        var c2 := c1 + LengthExtra(z - 257);
        match DistanceAt(data, distLens, c2)
        case None => None
        case Some((dist, c3)) =>
          Some((Match(Extended(data, c1, LengthBase(z - 257), LengthExtra(z - 257)), dist), c3))
  }

  /** Copying byte by byte, so that the source may overlap the bytes being written. */
  function CopyBack(out: seq<Byte>, dist: nat, length: nat): (r: seq<Byte>)
    requires 1 <= dist <= |out|
    ensures |r| == |out| + length && out <= r
    decreases length
  {
    if length == 0 then out else CopyBack(out + [out[|out| - dist]], dist, length - 1)
  }

  /** More output than an unsigned int can count is not decoded. */
  const OUTPUT_LIMIT := 0x1_0000_0000

  /** The rest of a compressed block: the final output and where the block ends. */
  ghost function BlockBody(data: seq<Byte>, litLens: seq<nat>, distLens: seq<nat>, c: nat, out: seq<Byte>)
    : (r: Option<(seq<Byte>, nat)>)
    ensures r.Some? ==> c <= r.value.1 && out <= r.value.0
    decreases OUTPUT_LIMIT - |out|
  {
    match TokenAt(data, litLens, distLens, c)
    case None => None
    case Some((EndOfBlock, c')) => Some((out, c'))
    case Some((Literal(b), c')) =>
      if |out| >= OUTPUT_LIMIT then None
      else BlockBody(data, litLens, distLens, c', out + [b])
    case Some((Match(length, dist), c')) =>
      if |out| >= OUTPUT_LIMIT || dist > |out| || length == 0 || dist == 0 then None
      else BlockBody(data, litLens, distLens, c', CopyBack(out, dist, length))
  }

  // ---- stored blocks (section 3.2.4) ----

  function Le16(data: seq<Byte>, p: nat): nat {
    256 * ByteAt(data, p + 1) + ByteAt(data, p)
  }

  /** LEN bytes after the next byte boundary, if NLEN is its complement. */
  function StoredBlock(data: seq<Byte>, c: nat): Option<(seq<Byte>, nat)> {
    var p := (c + 7) / 8;
    var len := Le16(data, p);
    if Le16(data, p + 2) != 0xFFFF - len || p + 4 + len > |data| then None
    else Some((data[p + 4..p + 4 + len], 8 * (p + 4 + len)))
  }

  // ---- dynamic codes (section 3.2.7) ----

  function Dezigzag(i: nat): (n: nat)
    requires i < 19
    ensures n < 19
  {
    [16, 17, 18, 0, 8, 7, 9, 6, 10, 5, 11, 4, 12, 3, 13, 2, 14, 1, 15][i]
  }

  /** The first n code length code lengths, three bits each, in the order of Dezigzag. */
  function CodeLengthSizes(data: seq<Byte>, c: nat, n: nat): (s: seq<nat>)
    requires n <= 19
    ensures |s| == 19 && IsLengths(s)
  {
    if n == 0 then seq(19, _ => 0)
    else
      WindowBound(data, c + 3 * (n - 1), 3);
      assert Pow2(3) == 8;
      CodeLengthSizes(data, c, n - 1)[Dezigzag(n - 1) := Window(data, c + 3 * (n - 1), 3)]
  }

  function Repeat(b: nat, n: nat): (s: seq<nat>)
    ensures |s| == n && forall i :: 0 <= i < n ==> s[i] == b
  {
    seq(n, _ => b)
  }

  /** The run of lengths that one code length symbol at c stands for, and where it ends. */
  ghost function RunAt(data: seq<Byte>, clens: seq<nat>, c: nat, sofar: seq<nat>): Option<(seq<nat>, nat)> {
    var z := SymbolAt(clens, data, c);
    if z < 0 || z >= 19 then None
    else
      var c' := c + clens[z];
      if z < 16 then Some(([z], c'))
      else if z == 16 then
        if sofar == [] then None
        else Some((Repeat(sofar[|sofar| - 1], 3 + Window(data, c', 2)), c' + 2))
      else if z == 17 then Some((Repeat(0, 3 + Window(data, c', 3)), c' + 3))
      else Some((Repeat(0, 11 + Window(data, c', 7)), c' + 7))
  }

  /** Runs until exactly `total` lengths are known. */
  ghost function CodeLengths(data: seq<Byte>, clens: seq<nat>, c: nat, sofar: seq<nat>, total: nat)
    : (r: Option<(seq<nat>, nat)>)
    requires |sofar| <= total
    ensures r.Some? ==> c <= r.value.1 && |r.value.0| == total && sofar <= r.value.0
    decreases total - |sofar|
  {
    if |sofar| == total then Some((sofar, c))
    else
      match RunAt(data, clens, c, sofar)
      case None => None
      case Some((run, c')) =>
        if run == [] || |sofar| + |run| > total then None
        else CodeLengths(data, clens, c', sofar + run, total)
  }

  /** The literal/length and distance code lengths of a dynamic block. */
  ghost function DynamicCodes(data: seq<Byte>, c: nat): (r: Option<(seq<nat>, seq<nat>, nat)>)
    ensures r.Some? ==> c <= r.value.2
  {
    var hlit := Window(data, c, 5) + 257;
    var hdist := Window(data, c + 5, 5) + 1;
    var hclen := HclenAt(data, c + 10);
    var clens := CodeLengthSizes(data, c + 14, hclen);
    if !KraftHolds(clens) then None
    else
      match CodeLengths(data, clens, c + 14 + 3 * hclen, [], hlit + hdist)
      case None => None
      case Some((lengths, c')) => Some((lengths[..hlit], lengths[hlit..], c'))
  }

  function HclenAt(data: seq<Byte>, c: nat): (n: nat)
    ensures 4 <= n <= 19
  {
    WindowBound(data, c, 4);
    assert Pow2(4) == 16;
    Window(data, c, 4) + 4
  }

  // ---- fixed codes (section 3.2.6) ----

  function FixedLiteral(): (s: seq<nat>)
    ensures |s| == 288 && IsLengths(s) && forall k :: 0 <= k < 288 ==> s[k] > 0
  {
    Repeat(8, 144) + Repeat(9, 112) + Repeat(7, 24) + Repeat(8, 8)
  }

  function FixedDistance(): (s: seq<nat>)
    ensures |s| == 32 && IsLengths(s) && forall k :: 0 <= k < 32 ==> s[k] > 0
  {
    Repeat(5, 32)
  }

  // ---- blocks and the stream ----

  ghost predicate UsableCodes(litLens: seq<nat>, distLens: seq<nat>) {
    IsLengths(litLens) && IsLengths(distLens) && KraftHolds(litLens) && KraftHolds(distLens)
  }

  ghost function CompressedBlock(data: seq<Byte>, litLens: seq<nat>, distLens: seq<nat>, c: nat, out: seq<Byte>)
    : (r: Option<(seq<Byte>, nat)>)
    ensures r.Some? ==> c <= r.value.1 && out <= r.value.0
  {
    if UsableCodes(litLens, distLens) then BlockBody(data, litLens, distLens, c, out) else None
  }

  /** The block whose header has been read up to c. */
  ghost function BlockOfType(data: seq<Byte>, kind: nat, c: nat, out: seq<Byte>): (r: Option<(seq<Byte>, nat)>)
    ensures r.Some? ==> c <= r.value.1 && out <= r.value.0
  {
    if kind == 0 then
      match StoredBlock(data, c)
      case None => None
      case Some((bytes, c')) => Some((out + bytes, c'))
    else if kind == 1 then
      CompressedBlock(data, FixedLiteral(), FixedDistance(), c, out)
    else if kind == 2 then
      match DynamicCodes(data, c)
      case None => None
      case Some((litLens, distLens, c')) => CompressedBlock(data, litLens, distLens, c', out)
    else None
  }

  /** Blocks up to and including the one marked final. */
  ghost function Blocks(data: seq<Byte>, c: nat, out: seq<Byte>): (r: Option<(seq<Byte>, nat)>)
    ensures r.Some? ==> c <= r.value.1 && out <= r.value.0
    decreases 8 * |data| - c
  {
    match BlockOfType(data, Window(data, c + 1, 2), c + 3, out)
    case None => None
    case Some((out', c')) =>
      if Window(data, c, 1) == 1 then Some((out', c'))
      else if c >= 8 * |data| then None
      else Blocks(data, c', out')
  }

  function HeaderWord(cmf: nat, flg: nat): nat {
    cmf * 256 + flg
  }

  /** The two bytes of a zlib header that PNG allows. */
  predicate ZlibHeader(data: seq<Byte>) {
    && |data| > 2
    && HeaderWord(data[0], data[1]) % 31 == 0
    && Bit(data[1], 5) == 0
    && data[0] % 16 == 8
  }

  ghost function Zlib(data: seq<Byte>, header: bool): Option<(seq<Byte>, nat)> {
    if !header then Blocks(data, 0, [])
    else if ZlibHeader(data) then Blocks(data, 16, [])
    else None
  }
}
