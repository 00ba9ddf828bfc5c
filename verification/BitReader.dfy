/** The input half of stbi__zbuf: the bit buffer, and symbols read through it. */
module BitReader {
  import opened Powers
  import opened Bits
  import opened BitStream
  import opened Canonical
  import opened HuffmanTable
  import opened InflateSpec

  class ZInput {
    const data: seq<Byte>
    var zbuffer: nat
    var numBits: nat
    var codeBuffer: nat
    var hitZeofOnce: bool
    /** How many stream bits have been consumed. */
    ghost var cursor: nat

    constructor (data: seq<Byte>, zbuffer: nat)
      requires zbuffer <= |data|
      ensures this.data == data && this.zbuffer == zbuffer
      ensures Synced() && numBits == 0 && !hitZeofOnce && cursor == 8 * zbuffer
    {
      this.data, this.zbuffer := data, zbuffer;
      numBits, codeBuffer, hitZeofOnce, cursor := 0, 0, false, 8 * zbuffer;
    }

    /** The bit buffer holds the unread bits of the zero-extended data that have been fetched. */
    ghost predicate Synced()
      reads this
    {
      && zbuffer <= |data|
      && numBits <= 32
      && codeBuffer == Window(data, cursor, numBits)
      && (cursor + numBits) % 8 == 0
      && (zbuffer < |data| ==> cursor + numBits == 8 * zbuffer)
      && (zbuffer == |data| ==> cursor + numBits >= 8 * |data|)
      && (hitZeofOnce ==> zbuffer == |data| && cursor + numBits >= 8 * |data| + 16)
    }

    /** The cursor has gone past the real data. */
    ghost predicate Overrun()
      reads this
    {
      cursor > 8 * |data|
    }

    predicate Zeof()
      reads this
    {
      zbuffer >= |data|
    }

    method Zget8() returns (b: Byte)
      requires zbuffer <= |data|
      modifies this`zbuffer
      ensures b == ByteAt(data, old(zbuffer))
      ensures zbuffer == if old(zbuffer) < |data| then old(zbuffer) + 1 else old(zbuffer)
    {
      if Zeof() {
        return 0;
      }
      b := data[zbuffer];
      zbuffer := zbuffer + 1;
    }

    method FillBits()
      requires Synced() && numBits <= 24
      modifies this`zbuffer, this`numBits, this`codeBuffer
      ensures Synced() && 25 <= numBits <= 32
    {
      FillByte();
      while numBits <= 24
        invariant Synced()
        decreases 32 - numBits
        modifies this`zbuffer, this`numBits, this`codeBuffer
      {
        FillByte();
      }
    }

    /** One pass of the fill loop. */
    method FillByte()
      requires Synced() && numBits <= 24
      modifies this`zbuffer, this`numBits, this`codeBuffer
      ensures Synced() && numBits == old(numBits) + 8
    {
      hide Window, Shl, BitOr, Pow2;
      WindowBound(data, cursor, numBits);
      ShlOne(numBits);
      if codeBuffer >= Shl(1, numBits) {
        // the early exit that would treat a corrupted buffer as the end of input
        assert false;
      }
      NextByte(data, cursor, numBits);
      var b := Zget8();
      codeBuffer := BitOr(codeBuffer, Shl(b, numBits));
      numBits := numBits + 8;
    }

    /** stbi__zreceive: the next n bits, first bit least significant. */
    method Receive(n: nat) returns (k: nat)
      requires Synced() && n <= 16
      modifies this
      ensures Synced() && hitZeofOnce == old(hitZeofOnce)
      ensures k == Window(data, old(cursor), n)
      ensures cursor == old(cursor) + n && numBits <= 32 - n
      ensures old(numBits) >= n ==> numBits == old(numBits) - n
    {
      if numBits < n {
        FillBits();
      }
      k := Low(codeBuffer, n);
      Drop(n);
    }

    /** Consumes n buffered bits. */
    method Drop(n: nat)
      requires Synced() && n <= numBits
      modifies this`numBits, this`codeBuffer, this`cursor
      ensures Synced() && numBits == old(numBits) - n && cursor == old(cursor) + n
      ensures Low(old(codeBuffer), n) == Window(data, old(cursor), n)
    {
      WindowSplit(data, cursor, numBits, n);
      codeBuffer := Shr(codeBuffer, n);
      numBits := numBits - n;
      cursor := cursor + n;
    }

    /**
     * The start of stbi__parse_uncompressed_block: skip to a byte boundary, drain
     * the whole bytes still buffered (at most three), read the rest of the header.
     */
    method ReadHeader() returns (header: array<nat>, k: nat)
      requires Synced() && numBits < 32
      modifies this
      ensures Synced() && numBits == 0 && fresh(header) && header.Length == 4
      ensures cursor == 8 * (old(cursor + 7) / 8 + 4)
      ensures forall j :: 0 <= j < 4 ==> header[j] == ByteAt(data, old(cursor + 7) / 8 + j)
      ensures k == old(numBits) / 8 <= 3
    {
      hide Window;
      ghost var p := (cursor + 7) / 8;
      header := new nat[4];
      Aligned(cursor, numBits);
      if numBits % 8 != 0 {
        Discard(numBits % 8);
      }
      k := DrainBytes(header, p);
      FetchBytes(header, k, p);
    }

    method Discard(n: nat)
      requires Synced() && n <= numBits && n <= 16
      modifies this
      ensures Synced() && numBits == old(numBits) - n && cursor == old(cursor) + n
    {
      var skipped := Receive(n);
    }

    /** Whole buffered bytes go to the front of the header. */
    method DrainBytes(header: array<nat>, ghost p: nat) returns (k: nat)
      requires Synced() && numBits % 8 == 0 && numBits < 32 && cursor == 8 * p && header.Length == 4
      modifies this`numBits, this`codeBuffer, this`cursor, header
      ensures Synced() && numBits == 0 && k == old(numBits) / 8 <= 3 && cursor == 8 * (p + k)
      ensures forall j :: 0 <= j < k ==> header[j] == ByteAt(data, p + j)
    {
      hide Window, Low, Shr, ByteAt;
      k := 0;
      while numBits > 0
        invariant Synced() && numBits % 8 == 0 && 8 * k + numBits == old(numBits) <= 24
        invariant cursor == 8 * (p + k)
        invariant forall j :: 0 <= j < k ==> header[j] == ByteAt(data, p + j)
        decreases numBits
        modifies this`numBits, this`codeBuffer, this`cursor, header
      {
        WindowByte(data, p + k);
        header[k] := Low(codeBuffer, 8);
        Drop(8);
        k := k + 1;
      }
    }

    /** The rest of the header comes straight from the data. */
    method FetchBytes(header: array<nat>, k0: nat, ghost p: nat)
      requires Synced() && numBits == 0 && k0 <= 4 && cursor == 8 * (p + k0) && header.Length == 4
      requires forall j :: 0 <= j < k0 ==> header[j] == ByteAt(data, p + j)
      modifies this`zbuffer, this`cursor, header
      ensures Synced() && cursor == 8 * (p + 4)
      ensures forall j :: 0 <= j < 4 ==> header[j] == ByteAt(data, p + j)
    {
      NoWindow(data);
      var k := k0;
      while k < 4
        invariant k <= 4 && Synced() && cursor == 8 * (p + k)
        invariant forall j :: 0 <= j < k ==> header[j] == ByteAt(data, p + j)
        modifies this`zbuffer, this`cursor, header
      {
        header[k] := Zget8();
        cursor := cursor + 8;
        k := k + 1;
      }
    }

    /** Moves over n bytes at a byte boundary. */
    method Skip(n: nat)
      requires Synced() && numBits == 0 && zbuffer + n <= |data| && cursor == 8 * zbuffer
      modifies this`zbuffer, this`cursor
      ensures Synced() && zbuffer == old(zbuffer) + n && cursor == old(cursor) + 8 * n
    {
      zbuffer, cursor := zbuffer + n, cursor + 8 * n;
    }

    /** stbi__zhuffman_decode: the symbol spelled at the cursor, or -1. */
    method Decode(z: ZHuffman, ghost lens: seq<nat>) returns (sym: int)
      requires Synced() && z.Represents(lens)
      modifies this
      ensures Synced()
      ensures sym >= 0 ==> sym == SymbolAt(lens, data, old(cursor)) && cursor == old(cursor) + lens[sym]
      ensures sym < 0 ==> sym == -1 && cursor == old(cursor)
      ensures sym < 0 ==> SymbolAt(lens, data, old(cursor)) == -1 || Overrun()
      ensures old(numBits) >= 16 || !old(hitZeofOnce) ==> (sym < 0 <==> SymbolAt(lens, data, old(cursor)) == -1)
    {
      hide Window, Low, Shr, FastOk, Spells, Place, KraftHolds, Hit;
      if numBits < 16 {
        if Zeof() {
          if !hitZeofOnce {
            PadWindow(data, cursor, numBits);
            hitZeofOnce := true;
            numBits := numBits + 16;
          } else {
            return -1;
          }
        } else {
          FillBits();
        }
      }
      FastPrefix(data, cursor, numBits);
      var b := z.fast[Low(codeBuffer, ZFAST_BITS)];
      if b != 0 {
        FastHit(lens, data, cursor, b);
        var s := Shr(b, 9);
        Drop(s);
        return Low(b, 9);
      }
      FastMiss(lens, data, cursor);
      sym := DecodeSlow(z, lens);
    }

    /** stbi__zhuffman_decode_slowpath */
    method DecodeSlow(z: ZHuffman, ghost lens: seq<nat>) returns (sym: int)
      requires Synced() && numBits >= 16 && z.Represents(lens)
      requires forall s :: 1 <= s <= ZFAST_BITS ==> !Hit(lens, data, cursor, s)
      modifies this`numBits, this`codeBuffer, this`cursor
      ensures Synced()
      ensures sym >= 0 ==> sym == SymbolAt(lens, data, old(cursor)) && cursor == old(cursor) + lens[sym]
      ensures sym < 0 ==> sym == -1 && cursor == old(cursor) && SymbolAt(lens, data, old(cursor)) == -1
    {
      hide Window, CodeAt, EndCode, FirstCode, Shl, Shr, BitReverse, Hit, CountBelow, ShorterBelow, Kraft, FastOk;
      var k := BitReverse(codeBuffer, 16);
      SlowCode(data, cursor, numBits);
      var s := ZFAST_BITS + 1;
      while k >= z.maxcode[s]
        invariant ZFAST_BITS + 1 <= s <= 16
        invariant !Hit(lens, data, cursor, s - 1)
        decreases 16 - s
        modifies {}
      {
        SlowTest(lens, data, cursor, s);
        s := s + 1;
      }
      if s >= 16 {
        NoHitNoSymbol(lens, data, cursor);
        return -1;
      }
      SlowTest(lens, data, cursor, s);
      ghost var i := FirstHitSpelled(lens, data, cursor, s);
      SymbolAtIs(lens, data, cursor, i);
      var b := Shr(k, 16 - s) - z.firstcode[s] + z.firstsymbol[s];
      PlaceInRange(lens, i);
      assert z.SymbolOk(lens, i);
      // neither the range check nor the size check of the source can fail here
      assert b == Place(lens, i) && b < ZNSYMS && z.size[b] == s;
      Drop(s);
      return z.value[b];
    }
  }

  // ---- facts about the buffered window ----

  lemma Aligned(c: nat, n: nat)
    requires (c + n) % 8 == 0
    ensures c + n % 8 == 8 * ((c + 7) / 8) && (n - n % 8) % 8 == 0
  {
  }

  lemma NoWindow(data: seq<Byte>)
    ensures forall c :: Window(data, c, 0) == 0
  {
  }

  /** A fetched byte extends the window by eight bits. */
  lemma NextByte(data: seq<Byte>, c: nat, n: nat)
    requires (c + n) % 8 == 0
    ensures var b := ByteAt(data, (c + n) / 8);
            BitOr(Window(data, c, n), Shl(b, n)) == Window(data, c, n + 8)
    ensures c + n >= 8 * |data| ==> ByteAt(data, (c + n) / 8) == 0
  {
    hide Window, Shl, BitOr, Pow2, Bit;
    var p := (c + n) / 8;
    assert c + n == 8 * p;
    WindowByte(data, p);
    WindowBound(data, c, n);
    OrDisjoint(Window(data, c, n), ByteAt(data, p), n);
    WindowJoin(data, c, n, 8);
  }

  lemma {:induction false} PastEnd(data: seq<Byte>, c: nat, n: nat)
    requires c >= 8 * |data|
    ensures Window(data, c, n) == 0
    decreases n
  {
    if n > 0 {
      PastEnd(data, c + 1, n - 1);
      ZeroBit(c % 8);
    }
  }

  /** Sixteen zero bits may be added at the end of the data without touching the buffer. */
  lemma PadWindow(data: seq<Byte>, c: nat, n: nat)
    requires c + n >= 8 * |data|
    ensures Window(data, c, n + 16) == Window(data, c, n)
  {
    WindowJoin(data, c, n, 16);
    PastEnd(data, c + n, 16);
    ShlZero(n);
  }

  /** The fast index holds the first nine stream bits. */
  lemma FastPrefix(data: seq<Byte>, c: nat, n: nat)
    requires n >= ZFAST_BITS
    ensures Low(Window(data, c, n), ZFAST_BITS) == Window(data, c, ZFAST_BITS) < ZFAST_SIZE
  {
    WindowSplit(data, c, n, ZFAST_BITS);
    WindowBound(data, c, ZFAST_BITS);
    PowNine();
  }

  /** A non-zero fast entry is the symbol spelled. */
  lemma FastHit(lens: seq<nat>, data: seq<Byte>, c: nat, v: nat)
    requires v != 0 && FastOk(lens, |lens|, Window(data, c, ZFAST_BITS), v)
    ensures Low(v, 9) < |lens| && SymbolAt(lens, data, c) == Low(v, 9)
    ensures Shr(v, 9) == lens[Low(v, 9)] <= ZFAST_BITS
  {
    var i := Low(v, 9);
    RevWindow(data, c, ZFAST_BITS, lens[i]);
    SymbolAtIs(lens, data, c, i);
  }

  /** A zero fast entry means that no code of at most nine bits is spelled. */
  lemma FastMiss(lens: seq<nat>, data: seq<Byte>, c: nat)
    requires FastOk(lens, |lens|, Window(data, c, ZFAST_BITS), 0)
    ensures forall s :: 1 <= s <= ZFAST_BITS ==> !Hit(lens, data, c, s)
  {
    forall s | 1 <= s <= ZFAST_BITS ensures !Hit(lens, data, c, s) {
      if Hit(lens, data, c, s) {
        var t := FindFirstHit(lens, data, c, s);
        var i := FirstHitSpelled(lens, data, c, t);
        RevWindow(data, c, ZFAST_BITS, t);
        assert FastMatch(lens, i, Window(data, c, ZFAST_BITS));
      }
    }
  }

  lemma {:induction false} FindFirstHit(lens: seq<nat>, data: seq<Byte>, c: nat, s: nat) returns (t: nat)
    requires s >= 1 && Hit(lens, data, c, s)
    ensures t <= s && FirstHit(lens, data, c, t)
  {
    if s == 1 || !Hit(lens, data, c, s - 1) {
      t := s;
    } else {
      t := FindFirstHit(lens, data, c, s - 1);
    }
  }

  /** The reversed sixteen bits are the next sixteen bits read as a code. */
  lemma SlowCode(data: seq<Byte>, c: nat, n: nat)
    requires n >= 16
    ensures BitReverse(Window(data, c, n), 16) == CodeAt(data, c, 16) < 0x1_0000
  {
    BitReverseIsRev(Window(data, c, n), 16);
    RevWindow(data, c, n, 16);
    CodeBound(data, c, 16);
    assert Pow2(8) == 256;
    Pow2Add(8, 8);
  }

  /** Comparing with the preshifted maxcode tests for a hit at length s. */
  lemma SlowTest(lens: seq<nat>, data: seq<Byte>, c: nat, s: nat)
    requires 1 <= s <= 15
    ensures Shr(CodeAt(data, c, 16), 16 - s) == CodeAt(data, c, s)
    ensures CodeAt(data, c, 16) < Shl(EndCode(lens, s), 16 - s) <==> Hit(lens, data, c, s)
  {
    var w := Window(data, c, 16);
    RevPrefix(w, 16, s);
    RevWindow(data, c, 16, s);
    RevWindow(data, c, 16, 16);
    ShiftedBound(CodeAt(data, c, 16), EndCode(lens, s), 16 - s);
  }

  lemma NoHitNoSymbol(lens: seq<nat>, data: seq<Byte>, c: nat)
    requires IsLengths(lens) && !Hit(lens, data, c, 15)
    ensures SymbolAt(lens, data, c) == -1
  {
    var i := SymbolAt(lens, data, c);
    if i >= 0 {
      SpelledAtFirstHit(lens, data, c, i);
      HitMono(lens, data, c, lens[i], 15);
    }
  }
}
