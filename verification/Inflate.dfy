/** stbi__parse_zlib and the block parsers, proved against the meaning of the stream. */
module Inflate {
  import opened Basics
  import opened Powers
  import opened Bits
  import opened BitStream
  import opened Canonical
  import opened HuffmanTable
  import opened InflateSpec
  import opened BitReader
  import opened ZOutputs

  /** Failing is right when there is nothing to decode, data ran out, or the output is too long. */
  ghost predicate Excused(r: Option<(seq<Byte>, nat)>, data: seq<Byte>, limit: nat) {
    r.Some? ==> r.value.1 > 8 * |data| || |r.value.0| > limit
  }

  lemma DistanceEnds(data: seq<Byte>, dl: seq<nat>, c: nat)
    ensures DistanceAt(data, dl, c).Some? ==> DistanceAt(data, dl, c).value.1 >= c
  {
  }

  /** The distance half of a match. */
  method ReadDistance(inp: ZInput, zDistance: ZHuffman, ghost dl: seq<nat>) returns (ok: bool, dist: nat)
    requires inp.Synced() && zDistance.Represents(dl)
    modifies inp
    ensures inp.Synced() && inp.cursor >= old(inp.cursor)
    ensures ok ==> DistanceAt(inp.data, dl, old(inp.cursor)) == Some((dist, inp.cursor)) && dist >= 1
    ensures !ok ==> DistanceAt(inp.data, dl, old(inp.cursor)).None?
                    || DistanceAt(inp.data, dl, old(inp.cursor)).value.1 > 8 * |inp.data|
  {
    hide Window, SymbolAt, DistBase, DistExtra, ZHuffman.Represents, ZInput.Synced;
    DistanceEnds(inp.data, dl, inp.cursor);
    var z := inp.Decode(zDistance, dl);
    if z < 0 || z >= 30 {
      return false, 0;
    }
    dist := DistBase(z);
    if DistExtra(z) != 0 {
      var extra := inp.Receive(DistExtra(z));
      dist := dist + extra;
    } else {
      NoBits(inp.data, inp.cursor);
    }
    return true, dist;
  }

  lemma NoBits(data: seq<Byte>, c: nat)
    ensures Window(data, c, 0) == 0
  {
  }

  /** One token of a compressed block. */
  method ReadToken(inp: ZInput, zLength: ZHuffman, zDistance: ZHuffman, ghost ll: seq<nat>, ghost dl: seq<nat>)
    returns (ok: bool, t: Token)
    requires inp.Synced() && zLength.Represents(ll) && zDistance.Represents(dl)
    modifies inp
    ensures inp.Synced()
    ensures ok ==> TokenAt(inp.data, ll, dl, old(inp.cursor)) == Some((t, inp.cursor))
    ensures ok && t.Match? ==> t.length >= 3 && t.dist >= 1
    ensures !ok ==> TokenAt(inp.data, ll, dl, old(inp.cursor)).None?
                    || TokenAt(inp.data, ll, dl, old(inp.cursor)).value.1 > 8 * |inp.data|
  {
    hide Window, SymbolAt, DistanceAt, LengthBase, LengthExtra, ZHuffman.RangesOk, ZHuffman.SymbolsOk,
         ZHuffman.FastTableOk, ZInput.Synced, KraftHolds;
    ghost var c := inp.cursor;
    var z := inp.Decode(zLength, ll);
    if z < 256 {
      if z < 0 {
        DecodeFailed(inp.data, ll, dl, c);
        return false, EndOfBlock;
      }
      return true, Literal(z);
    }
    if z == 256 {
      return true, EndOfBlock;
    }
    if z >= 286 {
      return false, EndOfBlock;
    }
    var length := LengthBase(z - 257);
    if LengthExtra(z - 257) != 0 {
      var extra := inp.Receive(LengthExtra(z - 257));
      length := length + extra;
    } else {
      NoBits(inp.data, inp.cursor);
    }
    var found, dist := ReadDistance(inp, zDistance, dl);
    if !found {
      return false, EndOfBlock;
    }
    return true, Match(length, dist);
  }

  lemma DecodeFailed(data: seq<Byte>, ll: seq<nat>, dl: seq<nat>, c: nat)
    ensures SymbolAt(ll, data, c) == -1 ==> TokenAt(data, ll, dl, c).None?
    ensures TokenAt(data, ll, dl, c).Some? ==> TokenAt(data, ll, dl, c).value.1 >= c
  {
  }

  /** stbi__parse_huffman_block */
  method ParseHuffmanBlock(inp: ZInput, outp: ZOutput, zLength: ZHuffman, zDistance: ZHuffman,
                           ghost ll: seq<nat>, ghost dl: seq<nat>)
    returns (ok: bool)
    requires inp.Synced() && outp.Valid()
    requires zLength.Represents(ll) && zDistance.Represents(dl)
    requires outp.buffer as object !in zLength.Arrays() && outp.buffer as object !in zDistance.Arrays()
    modifies inp, outp, outp.buffer
    ensures inp.Synced() && outp.Valid() && (outp.buffer == old(outp.buffer) || fresh(outp.buffer))
    ensures ok ==>
              BlockBody(inp.data, ll, dl, old(inp.cursor), old(outp.Contents())) == Some((outp.Contents(), inp.cursor))
    ensures !ok ==>
              Excused(BlockBody(inp.data, ll, dl, old(inp.cursor), old(outp.Contents())), inp.data, outp.Limit())
  {
    hide ZHuffman.RangesOk, ZHuffman.SymbolsOk, ZHuffman.FastTableOk, KraftHolds, TokenAt, BlockBody, Window,
         Apply, Applies;
    while true
      invariant inp.Synced() && outp.Valid() && (outp.buffer == old(outp.buffer) || fresh(outp.buffer))
      invariant zLength.Represents(ll) && zDistance.Represents(dl)
      invariant BlockBody(inp.data, ll, dl, inp.cursor, outp.Contents()) ==
                BlockBody(inp.data, ll, dl, old(inp.cursor), old(outp.Contents()))
      decreases UINT_MAX - outp.zout
    {
      ghost var c, out := inp.cursor, outp.Contents();
      var found, t := ReadToken(inp, zLength, zDistance, ll, dl);
      if !found {
        NoToken(inp.data, ll, dl, c, out);
        return false;
      }
      BodyStep(inp.data, ll, dl, c, out, t, inp.cursor);
      if t.EndOfBlock? {
        if inp.hitZeofOnce && inp.numBits < 16 {
          return false;
        }
        return true;
      }
      ok := Emit(outp, t);
      if !ok {
        return;
      }
    }
  }

  ghost predicate Applies(t: Token, out: seq<Byte>) {
    t.Match? ==> 1 <= t.dist <= |out|
  }

  ghost function Apply(out: seq<Byte>, t: Token): (r: seq<Byte>)
    requires Applies(t, out)
    ensures |r| == |out| + TokenSize(t)
  {
    match t
    case Literal(b) => out + [b]
    case Match(length, dist) => CopyBack(out, dist, length)
    case EndOfBlock => out
  }

  /** Writes a literal, or copies a match that does not reach before the output. */
  method Emit(outp: ZOutput, t: Token) returns (ok: bool)
    requires outp.Valid() && !t.EndOfBlock?
    requires t.Match? ==> t.dist >= 1
    modifies outp, outp.buffer
    ensures outp.Valid() && (outp.buffer == old(outp.buffer) || fresh(outp.buffer))
    ensures ok ==> Applies(t, old(outp.Contents())) && outp.Contents() == Apply(old(outp.Contents()), t)
    ensures !ok ==> !Applies(t, old(outp.Contents())) || old(outp.zout) + TokenSize(t) > outp.Limit()
  {
    if t.Literal? {
      ok := outp.PutByte(t.b);
    } else {
      if outp.zout < t.dist {
        return false;
      }
      ok := outp.CopyMatch(t.length, t.dist);
    }
  }

  /** What a token does to the rest of the block. */
  lemma BodyStep(data: seq<Byte>, ll: seq<nat>, dl: seq<nat>, c: nat, out: seq<Byte>, t: Token, c': nat)
    requires |out| <= UINT_MAX
    requires TokenAt(data, ll, dl, c) == Some((t, c'))
    requires t.Match? ==> t.length >= 1 && t.dist >= 1
    ensures var r := BlockBody(data, ll, dl, c, out);
            && (t.EndOfBlock? ==> r == Some((out, c')))
            && (!t.EndOfBlock? && Applies(t, out) ==> r == BlockBody(data, ll, dl, c', Apply(out, t)))
            && (!Applies(t, out) ==> r.None?)
            && (r.Some? ==> |r.value.0| >= |out| + TokenSize(t))
  {
  }

  function TokenSize(t: Token): nat {
    match t
    case Literal(_) => 1
    case Match(length, _) => length
    case EndOfBlock => 0
  }

  lemma NoToken(data: seq<Byte>, ll: seq<nat>, dl: seq<nat>, c: nat, out: seq<Byte>)
    ensures var t, r := TokenAt(data, ll, dl, c), BlockBody(data, ll, dl, c, out);
            && (t.None? ==> r.None?)
            && (t.Some? && r.Some? ==> r.value.1 >= t.value.1)
  {
  }

  // ---- stored blocks ----

  /** An empty stored block cannot have its NLEN in the zero padding. */
  lemma EmptyStoredInData(data: seq<Byte>, p: nat)
    requires Le16(data, p) == 0 && Le16(data, p + 2) == 0xFFFF
    ensures p + 4 <= |data|
  {
  }

  /** stbi__parse_uncompressed_block */
  method ParseUncompressedBlock(inp: ZInput, outp: ZOutput) returns (ok: bool)
    requires inp.Synced() && inp.numBits < 32 && outp.Valid()
    modifies inp, outp, outp.buffer
    ensures inp.Synced() && outp.Valid() && (outp.buffer == old(outp.buffer) || fresh(outp.buffer))
    ensures ok ==>
              BlockOfType(inp.data, 0, old(inp.cursor), old(outp.Contents())) == Some((outp.Contents(), inp.cursor))
    ensures !ok ==>
              Excused(BlockOfType(inp.data, 0, old(inp.cursor), old(outp.Contents())), inp.data, outp.Limit())
  {
    ghost var p := (inp.cursor + 7) / 8;
    var header, _ := inp.ReadHeader();
    var len := header[1] * 256 + header[0];
    var nlen := header[3] * 256 + header[2];
    assert len == Le16(inp.data, p) && nlen == Le16(inp.data, p + 2);
    if nlen != 0xFFFF - len {
      return false;
    }
    if len == 0 {
      EmptyStoredInData(inp.data, p);
    }
    if inp.zbuffer + len > |inp.data| {
      return false;
    }
    assert inp.zbuffer == p + 4;
    ok := outp.PutBytes(inp.data[inp.zbuffer..inp.zbuffer + len]);
    if ok {
      inp.Skip(len);
    }
  }

  // ---- dynamic codes ----

  /** The code length code: hclen three-bit sizes in zigzag order, the others zero. */
  method ReadCodeLengthSizes(inp: ZInput, hclen: nat) returns (sizes: array<nat>)
    requires inp.Synced() && hclen <= 19
    modifies inp
    ensures inp.Synced() && inp.cursor == old(inp.cursor) + 3 * hclen
    ensures fresh(sizes) && sizes.Length == 19
    ensures sizes[..] == CodeLengthSizes(inp.data, old(inp.cursor), hclen)
  {
    hide Window, Dezigzag;
    sizes := new nat[19](_ => 0);
    ghost var c := inp.cursor;
    assert sizes[..] == CodeLengthSizes(inp.data, c, 0);
    var i := 0;
    while i < hclen
      invariant 0 <= i <= hclen && inp.Synced() && inp.cursor == c + 3 * i
      invariant sizes[..] == CodeLengthSizes(inp.data, c, i)
      modifies inp, sizes
    {
      var s := inp.Receive(3);
      sizes[Dezigzag(i)] := s;
      i := i + 1;
    }
  }

  /** The run-length coded lengths of both alphabets, in the 455-byte scratch array. */
  method ReadCodeLengths(inp: ZInput, z: ZHuffman, ghost clens: seq<nat>, ntot: nat)
    returns (ok: bool, lencodes: array<nat>)
    requires inp.Synced() && z.Represents(clens) && |clens| == 19 && ntot <= 320
    modifies inp
    ensures inp.Synced() && fresh(lencodes) && lencodes.Length == 286 + 32 + 137
    ensures ok ==> CodeLengths(inp.data, clens, old(inp.cursor), [], ntot) == Some((lencodes[..ntot], inp.cursor))
    ensures ok ==> IsLengths(lencodes[..ntot])
    ensures !ok ==> var r := CodeLengths(inp.data, clens, old(inp.cursor), [], ntot);
                    r.Some? ==> r.value.1 > 8 * |inp.data|
  {
    hide ZHuffman.RangesOk, ZHuffman.SymbolsOk, ZHuffman.FastTableOk, KraftHolds, CodeLengths, Window, RunAt;
    lencodes := new nat[286 + 32 + 137];
    ghost var c0 := inp.cursor;
    var n := 0;
    assert lencodes[..n] == [];
    while n < ntot
      invariant 0 <= n <= ntot && inp.Synced() && z.Represents(clens)
      invariant IsLengths(lencodes[..n])
      invariant CodeLengths(inp.data, clens, c0, [], ntot) ==
                CodeLengths(inp.data, clens, inp.cursor, lencodes[..n], ntot)
      modifies inp, lencodes
    {
      ghost var c, sofar := inp.cursor, lencodes[..n];
      RunStep(inp.data, clens, c, sofar, ntot);
      var found, fill, count := ReadRun(inp, z, clens, lencodes, n);
      if !found || ntot - n < count {
        return false, lencodes;
      }
      FillLengths(lencodes, n, fill, count);
      n := n + count;
    }
    CodeLengthsDone(inp.data, clens, inp.cursor, lencodes[..n], ntot);
    ok := true;
  }

  lemma CodeLengthsDone(data: seq<Byte>, clens: seq<nat>, c: nat, sofar: seq<nat>, total: nat)
    requires |sofar| == total
    ensures CodeLengths(data, clens, c, sofar, total) == Some((sofar, c))
  {
  }

  /** What one run does to the rest of the code lengths. */
  lemma RunStep(data: seq<Byte>, clens: seq<nat>, c: nat, sofar: seq<nat>, total: nat)
    requires |sofar| < total
    ensures var run, r := RunAt(data, clens, c, sofar), CodeLengths(data, clens, c, sofar, total);
            && (run.None? ==> r.None?)
            && (run.Some? && |run.value.0| > total - |sofar| ==> r.None?)
            && (run.Some? && 1 <= |run.value.0| <= total - |sofar| ==>
                  r == CodeLengths(data, clens, run.value.1, sofar + run.value.0, total))
            && (run.Some? && r.Some? ==> r.value.1 >= run.value.1)
  {
  }

  /** One code length symbol: how many times which length is to be repeated. */
  method ReadRun(inp: ZInput, z: ZHuffman, ghost clens: seq<nat>, lencodes: array<nat>, n: nat)
    returns (ok: bool, fill: nat, count: nat)
    requires inp.Synced() && z.Represents(clens) && |clens| == 19
    requires n <= lencodes.Length && IsLengths(lencodes[..n])
    modifies inp
    ensures inp.Synced()
    ensures ok ==> RunAt(inp.data, clens, old(inp.cursor), lencodes[..n]) == Some((Repeat(fill, count), inp.cursor))
    ensures ok ==> fill <= MAX_BITS && count >= 1
    ensures !ok ==> var run := RunAt(inp.data, clens, old(inp.cursor), lencodes[..n]);
                    run.Some? ==> run.value.1 > 8 * |inp.data|
  {
    hide ZHuffman.RangesOk, ZHuffman.SymbolsOk, ZHuffman.FastTableOk, KraftHolds, Window, SymbolAt, ZInput.Synced;
    var c := inp.Decode(z, clens);
    if c < 0 || c >= 19 {
      return false, 0, 0;
    }
    if c < 16 {
      assert Repeat(c, 1) == [c];
      return true, c, 1;
    }
    if c == 16 {
      var r := inp.Receive(2);
      if n == 0 {
        return false, 0, 0;
      }
      assert lencodes[..n][n - 1] == lencodes[n - 1];
      return true, lencodes[n - 1], r + 3;
    } else if c == 17 {
      var r := inp.Receive(3);
      return true, 0, r + 3;
    } else {
      var r := inp.Receive(7);
      return true, 0, r + 11;
    }
  }

  method FillLengths(lencodes: array<nat>, n: nat, fill: nat, count: nat)
    requires n + count <= lencodes.Length
    modifies lencodes
    ensures lencodes[..n + count] == old(lencodes[..n]) + Repeat(fill, count)
  {
    var i := 0;
    while i < count
      invariant 0 <= i <= count
      invariant lencodes[..n] == old(lencodes[..n])
      invariant forall k :: n <= k < n + i ==> lencodes[k] == fill
      modifies lencodes
    {
      lencodes[n + i] := fill;
      i := i + 1;
    }
  }

  /** stbi__compute_huffman_codes */
  method ComputeHuffmanCodes(inp: ZInput, zLength: ZHuffman, zDistance: ZHuffman)
    returns (ok: bool, ghost ll: seq<nat>, ghost dl: seq<nat>)
    requires inp.Synced() && zLength.Shaped() && zDistance.Shaped()
    requires zLength.Arrays() !! zDistance.Arrays()
    modifies inp, zLength.Arrays(), zDistance.Arrays()
    ensures inp.Synced()
    ensures ok ==> DynamicCodes(inp.data, old(inp.cursor)) == Some((ll, dl, inp.cursor))
    ensures ok ==> zLength.Represents(ll) && zDistance.Represents(dl)
    ensures !ok ==> var r := DynamicCodes(inp.data, old(inp.cursor));
                    r.Some? ==> r.value.2 > 8 * |inp.data| || !UsableCodes(r.value.0, r.value.1)
  {
    hide ZHuffman.RangesOk, ZHuffman.SymbolsOk, ZHuffman.FastTableOk, KraftHolds, DynamicCodes, ZInput.Synced;
    var hlit, lengths;
    ok, hlit, lengths := ReadDynamicLengths(inp);
    if !ok {
      ll, dl := [], [];
      return;
    }
    ll, dl := lengths[..hlit], lengths[hlit..];
    ok := zLength.Build(lengths[..hlit]);
    if !ok {
      return;
    }
    ok := zDistance.Build(lengths[hlit..]);
  }

  /** The dynamic header up to the point where the two tables are built. */
  method ReadDynamicLengths(inp: ZInput) returns (ok: bool, hlit: nat, lengths: seq<nat>)
    requires inp.Synced()
    modifies inp
    ensures inp.Synced()
    ensures ok ==> hlit <= |lengths| && hlit <= ZNSYMS && |lengths| - hlit <= 32 && IsLengths(lengths)
    ensures ok ==> DynamicCodes(inp.data, old(inp.cursor)) == Some((lengths[..hlit], lengths[hlit..], inp.cursor))
    ensures !ok ==> var r := DynamicCodes(inp.data, old(inp.cursor));
                    r.Some? ==> r.value.2 > 8 * |inp.data|
  {
    hide ZHuffman.RangesOk, ZHuffman.SymbolsOk, ZHuffman.FastTableOk, KraftHolds, Window, CodeLengths,
         CodeLengthSizes, ZInput.Synced;
    HeaderBounds(inp.data, inp.cursor);
    lengths := [];
    hlit := inp.Receive(5);
    var hdist := inp.Receive(5);
    var hclen := inp.Receive(4);
    hlit, hdist, hclen := hlit + 257, hdist + 1, hclen + 4;
    var sizes := ReadCodeLengthSizes(inp, hclen);
    var zCodelength := new ZHuffman();
    ok := zCodelength.Build(sizes[..]);
    if !ok {
      return;
    }
    var lencodes;
    ok, lencodes := ReadCodeLengths(inp, zCodelength, sizes[..], hlit + hdist);
    lengths := lencodes[..hlit + hdist];
  }

  lemma HeaderBounds(data: seq<Byte>, c: nat)
    ensures Window(data, c, 5) < 32 && Window(data, c + 5, 5) < 32 && Window(data, c + 10, 4) < 16
  {
    WindowBound(data, c, 5);
    WindowBound(data, c + 5, 5);
    WindowBound(data, c + 10, 4);
    assert Pow2(4) == 16 && Pow2(5) == 32;
  }

  // ---- blocks and the stream ----

  /** The two Huffman block types: tables, then tokens. */
  method ParseCompressedBlock(kind: nat, inp: ZInput, outp: ZOutput, zLength: ZHuffman, zDistance: ZHuffman)
    returns (ok: bool)
    requires kind == 1 || kind == 2
    requires inp.Synced() && outp.Valid() && zLength.Shaped() && zDistance.Shaped()
    requires zLength.Arrays() !! zDistance.Arrays()
    requires outp.buffer as object !in zLength.Arrays() && outp.buffer as object !in zDistance.Arrays()
    modifies inp, outp, outp.buffer, zLength.Arrays(), zDistance.Arrays()
    ensures inp.Synced() && outp.Valid() && (outp.buffer == old(outp.buffer) || fresh(outp.buffer))
    ensures ok ==>
              BlockOfType(inp.data, kind, old(inp.cursor), old(outp.Contents())) == Some((outp.Contents(), inp.cursor))
    ensures !ok ==>
              Excused(BlockOfType(inp.data, kind, old(inp.cursor), old(outp.Contents())), inp.data, outp.Limit())
  {
    hide ZHuffman.RangesOk, ZHuffman.SymbolsOk, ZHuffman.FastTableOk, KraftHolds, DynamicCodes, ZInput.Synced,
         BlockBody, FixedLiteral, FixedDistance;
    ghost var ll, dl;
    if kind == 1 {
      ll, dl := FixedLiteral(), FixedDistance();
      ok := zLength.Build(FixedLiteral());
      if ok {
        ok := zDistance.Build(FixedDistance());
      }
    } else {
      ok, ll, dl := ComputeHuffmanCodes(inp, zLength, zDistance);
    }
    if !ok {
      return;
    }
    ok := ParseHuffmanBlock(inp, outp, zLength, zDistance, ll, dl);
  }

  method ParseBlock(kind: nat, inp: ZInput, outp: ZOutput, zLength: ZHuffman, zDistance: ZHuffman)
    returns (ok: bool)
    requires inp.Synced() && inp.numBits < 32 && outp.Valid() && zLength.Shaped() && zDistance.Shaped()
    requires zLength.Arrays() !! zDistance.Arrays()
    requires outp.buffer as object !in zLength.Arrays() && outp.buffer as object !in zDistance.Arrays()
    modifies inp, outp, outp.buffer, zLength.Arrays(), zDistance.Arrays()
    ensures inp.Synced() && outp.Valid() && (outp.buffer == old(outp.buffer) || fresh(outp.buffer))
    ensures ok ==>
              BlockOfType(inp.data, kind, old(inp.cursor), old(outp.Contents())) == Some((outp.Contents(), inp.cursor))
    ensures !ok ==>
              Excused(BlockOfType(inp.data, kind, old(inp.cursor), old(outp.Contents())), inp.data, outp.Limit())
  {
    if kind == 0 {
      ok := ParseUncompressedBlock(inp, outp);
    } else if kind == 1 || kind == 2 {
      ok := ParseCompressedBlock(kind, inp, outp, zLength, zDistance);
    } else {
      ok := false;
    }
  }

  /** The zero padding holds no block. */
  lemma BlockPastEnd(data: seq<Byte>, c: nat, out: seq<Byte>)
    requires c >= 8 * |data|
    ensures Window(data, c + 1, 2) == 0 && BlockOfType(data, 0, c + 3, out).None?
  {
    PastEnd(data, c + 1, 2);
  }

  ghost function BlockAt(data: seq<Byte>, c: nat, out: seq<Byte>): (r: Option<(seq<Byte>, nat)>)
    ensures r.Some? ==> c + 3 <= r.value.1 && out <= r.value.0
  {
    BlockOfType(data, Window(data, c + 1, 2), c + 3, out)
  }

  /** What one block does to the rest of the stream. */
  lemma BlocksStep(data: seq<Byte>, c: nat, out: seq<Byte>, limit: nat)
    ensures var b, r := BlockAt(data, c, out), Blocks(data, c, out);
            && (c >= 8 * |data| ==> b.None?)
            && (Excused(b, data, limit) ==> Excused(r, data, limit))
            && (b.Some? ==> r == if Window(data, c, 1) == 1 then b else Blocks(data, b.value.1, b.value.0))
  {
    if c >= 8 * |data| {
      BlockPastEnd(data, c, out);
    }
  }

  /** One pass of the block loop of stbi__parse_zlib. */
  method NextBlock(inp: ZInput, outp: ZOutput, zLength: ZHuffman, zDistance: ZHuffman)
    returns (ok: bool, final: nat)
    requires inp.Synced() && outp.Valid() && zLength.Shaped() && zDistance.Shaped()
    requires zLength.Arrays() !! zDistance.Arrays()
    requires outp.buffer as object !in zLength.Arrays() && outp.buffer as object !in zDistance.Arrays()
    modifies inp, outp, outp.buffer, zLength.Arrays(), zDistance.Arrays()
    ensures inp.Synced() && outp.Valid() && (outp.buffer == old(outp.buffer) || fresh(outp.buffer))
    ensures final == Window(inp.data, old(inp.cursor), 1)
    ensures ok ==> BlockAt(inp.data, old(inp.cursor), old(outp.Contents())) == Some((outp.Contents(), inp.cursor))
    ensures !ok ==> Excused(BlockAt(inp.data, old(inp.cursor), old(outp.Contents())), inp.data, outp.Limit())
  {
    hide BlockOfType, Window, ZInput.Synced;
    final := inp.Receive(1);
    var kind := inp.Receive(2);
    ok := ParseBlock(kind, inp, outp, zLength, zDistance);
  }

  /** The block loop of stbi__parse_zlib. */
  method ParseBlocks(inp: ZInput, outp: ZOutput) returns (ok: bool)
    requires inp.Synced() && outp.Valid()
    modifies inp, outp, outp.buffer
    ensures inp.Synced() && outp.Valid() && (outp.buffer == old(outp.buffer) || fresh(outp.buffer))
    ensures ok ==>
              Blocks(inp.data, old(inp.cursor), old(outp.Contents())) == Some((outp.Contents(), inp.cursor))
    ensures !ok ==>
              Excused(Blocks(inp.data, old(inp.cursor), old(outp.Contents())), inp.data, outp.Limit())
  {
    hide BlockAt, Blocks, Window, ZInput.Synced, Excused;
    var zLength := new ZHuffman();
    var zDistance := new ZHuffman();
    while true
      invariant inp.Synced() && outp.Valid() && (outp.buffer == old(outp.buffer) || fresh(outp.buffer))
      invariant outp.buffer as object !in zLength.Arrays() && outp.buffer as object !in zDistance.Arrays()
      invariant Blocks(inp.data, old(inp.cursor), old(outp.Contents())) ==
                Blocks(inp.data, inp.cursor, outp.Contents())
      decreases 8 * |inp.data| - inp.cursor
    {
      BlocksStep(inp.data, inp.cursor, outp.Contents(), outp.Limit());
      var final;
      ok, final := NextBlock(inp, outp, zLength, zDistance);
      if !ok {
        return;
      }
      if final == 1 {
        return;
      }
    }
  }

  /**
   * The two header bytes as section 2.2 of RFC 1950 lays them out: compression method 8, a window of at most
   * 32K, a compression level, no preset dictionary, and the check bits that make the word a multiple of 31.
   */
  ghost predicate Rfc1950Header(data: seq<Byte>) {
    exists cinfo: nat, flevel: nat, fcheck: nat | cinfo <= 7 && flevel <= 3 && fcheck <= 31 ::
      LaidOut(data, cinfo, flevel, fcheck)
  }

  predicate LaidOut(data: seq<Byte>, cinfo: nat, flevel: nat, fcheck: nat) {
    && |data| >= 2
    && data[0] == 16 * cinfo + 8 && data[1] == 64 * flevel + fcheck
    && (256 * (16 * cinfo + 8) + 64 * flevel + fcheck) % 31 == 0
  }

  /** RFC headers with data behind them are accepted; an accepted one is an RFC header iff its window is small. */
  lemma HeaderAccepted(data: seq<Byte>)
    ensures |data| > 2 && Rfc1950Header(data) ==> ZlibHeader(data)
    ensures ZlibHeader(data) ==> (Rfc1950Header(data) <==> data[0] / 16 <= 7)
  {
    hide ZlibHeader, LaidOut;
    if |data| > 2 && Rfc1950Header(data) {
      var cinfo: nat, flevel: nat, fcheck: nat :|
        cinfo <= 7 && flevel <= 3 && fcheck <= 31 && LaidOut(data, cinfo, flevel, fcheck);
      LaidOutAccepted(data, cinfo, flevel, fcheck);
    }
    if ZlibHeader(data) {
      AcceptedLaidOut(data);
    }
  }

  lemma LaidOutAccepted(data: seq<Byte>, cinfo: nat, flevel: nat, fcheck: nat)
    requires |data| > 2 && cinfo <= 7 && flevel <= 3 && fcheck <= 31 && LaidOut(data, cinfo, flevel, fcheck)
    ensures ZlibHeader(data) && data[0] / 16 == cinfo
  {
    hide Bit;
    FifthBit(data[1], 2 * flevel, fcheck);
  }

  lemma AcceptedLaidOut(data: seq<Byte>)
    requires ZlibHeader(data)
    ensures |data| > 2 && data[1] / 64 <= 3 && data[1] % 32 <= 31
    ensures LaidOut(data, data[0] / 16, data[1] / 64, data[1] % 32)
  {
    hide Bit;
    var cmf: nat, flg: nat := data[0], data[1];
    FifthBit(flg, flg / 32, flg % 32);
    HighBits(flg);
    assert cmf == 16 * (cmf / 16) + 8;
  }

  lemma HighBits(flg: nat)
    requires flg < 256 && flg / 32 % 2 == 0
    ensures flg / 64 <= 3 && flg == 64 * (flg / 64) + flg % 32
  {
    var q, r := flg / 32, flg % 32;
    assert flg == 32 * q + r;
    assert q == 2 * (q / 2);
    assert flg / 64 == q / 2;
  }

  lemma FifthBit(n: nat, q: nat, r: nat)
    requires n == 32 * q + r && r < 32
    ensures Bit(n, 5) == q % 2
  {
    assert Bit(n, 5) == Bit(n / 2, 4) == Bit(n / 4, 3) == Bit(n / 8, 2) == Bit(n / 16, 1) == Bit(n / 32, 0);
  }

  /** The headers that encoders usually write. */
  lemma CommonHeaders()
    ensures Rfc1950Header([0x78, 0x01]) && Rfc1950Header([0x78, 0x9C]) && Rfc1950Header([0x78, 0xDA])
  {
    hide Rfc1950Header;
    WrittenHeader(0x78, 0x01, 7, 0, 1, 991);
    WrittenHeader(0x78, 0x9C, 7, 2, 28, 996);
    WrittenHeader(0x78, 0xDA, 7, 3, 26, 998);
  }

  lemma WrittenHeader(cmf: Byte, flg: Byte, cinfo: nat, flevel: nat, fcheck: nat, q: nat)
    requires cinfo <= 7 && flevel <= 3 && fcheck <= 31 && cmf == 16 * cinfo + 8 && flg == 64 * flevel + fcheck
    requires 256 * (16 * cinfo + 8) + 64 * flevel + fcheck == 31 * q
    ensures Rfc1950Header([cmf, flg])
  {
    assert LaidOut([cmf, flg], cinfo, flevel, fcheck);
  }

  /** A window of 64K is accepted although the RFC does not allow it. */
  lemma LargeWindowAccepted()
    ensures ZlibHeader([0x88, 0x1C, 0]) && !Rfc1950Header([0x88, 0x1C, 0])
  {
    var data: seq<Byte> := [0x88, 0x1C, 0];
    FifthBit(0x1C, 0, 0x1C);
    HeaderAccepted(data);
  }

  /** stbi__parse_zlib_header */
  method ParseZlibHeader(data: seq<Byte>) returns (ok: bool)
    ensures ok == ZlibHeader(data)
    ensures |data| > 2 && Rfc1950Header(data) ==> ok
    ensures ok ==> (Rfc1950Header(data) <==> data[0] / 16 <= 7)
  {
    HeaderAccepted(data);
    if |data| <= 2 {
      return false;
    }
    var cmf: nat, flg: nat := data[0], data[1];
    if HeaderWord(cmf, flg) % 31 != 0 {
      return false;
    }
    if Bit(flg, 5) != 0 {
      return false;
    }
    return cmf % 16 == 8;
  }

  /**
   * stbi__do_zlib over a fresh buffer. Success means that the stream says
   * exactly this output. Failure means that it says nothing, that it only says
   * something by reading past the data, or that the output exceeds the limit.
   */
  method DoZlib(data: seq<Byte>, initialSize: nat, expandable: bool, parseHeader: bool)
    returns (ok: bool, out: seq<Byte>)
    requires 1 <= initialSize <= UINT_MAX
    ensures ok ==> Zlib(data, parseHeader).Some? && out == Zlib(data, parseHeader).value.0
    ensures ok ==> |out| <= OutputLimit(initialSize, expandable)
    ensures !ok ==> Excused(Zlib(data, parseHeader), data, OutputLimit(initialSize, expandable))
  {
    hide Blocks;
    out := [];
    var start := 0;
    if parseHeader {
      ok := ParseZlibHeader(data);
      if !ok {
        return;
      }
      start := 2;
    }
    var inp := new ZInput(data, start);
    var outp := new ZOutput(initialSize, expandable);
    ok := ParseBlocks(inp, outp);
    if ok {
      out := outp.buffer[..outp.zout];
    }
  }
}
