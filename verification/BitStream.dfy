/** The compressed data as an endless bit stream: bytes least significant bit first, then zeros. */
module BitStream {
  import opened Powers
  import opened Bits

  function ByteAt(data: seq<Byte>, p: nat): Byte {
    if p < |data| then data[p] else 0
  }

  function StreamBit(data: seq<Byte>, i: nat): (b: nat)
    ensures b < 2
  {
    Bit(ByteAt(data, i / 8), i % 8)
  }

  /** n stream bits from c as a number, first bit least significant (section 3.1.1 of RFC 1951). */
  function Window(data: seq<Byte>, c: nat, n: nat): nat
    decreases n
  {
    if n == 0 then 0 else StreamBit(data, c) + 2 * Window(data, c + 1, n - 1)
  }

  /** n stream bits from c as a Huffman code, first bit most significant. */
  function CodeAt(data: seq<Byte>, c: nat, n: nat): nat {
    if n == 0 then 0 else 2 * CodeAt(data, c, n - 1) + StreamBit(data, c + n - 1)
  }

  lemma {:induction false} WindowBound(data: seq<Byte>, c: nat, n: nat)
    ensures Window(data, c, n) < Pow2(n)
    decreases n
  {
    if n > 0 {
      WindowBound(data, c + 1, n - 1);
    }
  }

  lemma {:induction false} WindowBit(data: seq<Byte>, c: nat, n: nat, i: nat)
    requires i < n
    ensures Bit(Window(data, c, n), i) == StreamBit(data, c + i)
    decreases n
  {
    if i > 0 {
      WindowBit(data, c + 1, n - 1, i - 1);
      BitOfDouble(Window(data, c + 1, n - 1), StreamBit(data, c), i);
    }
  }

  /** Taking n bits from the front leaves the window that starts n bits later. */
  lemma {:induction false} WindowSplit(data: seq<Byte>, c: nat, n: nat, k: nat)
    requires k <= n
    ensures Low(Window(data, c, n), k) == Window(data, c, k)
    ensures Shr(Window(data, c, n), k) == Window(data, c + k, n - k)
    decreases k
  {
    if k > 0 {
      WindowSplit(data, c + 1, n - 1, k - 1);
      assert Window(data, c, n) / 2 == Window(data, c + 1, n - 1);
    }
  }

  lemma {:induction false} WindowJoin(data: seq<Byte>, c: nat, n: nat, m: nat)
    ensures Window(data, c, n + m) == Window(data, c, n) + Shl(Window(data, c + n, m), n)
    decreases n
  {
    if n > 0 {
      WindowJoin(data, c + 1, n - 1, m);
    }
  }

  /** At a byte boundary eight bits are the next byte. */
  lemma WindowByte(data: seq<Byte>, p: nat)
    ensures Window(data, 8 * p, 8) == ByteAt(data, p)
  {
    hide Window, Bit;
    var b := ByteAt(data, p);
    WindowBound(data, 8 * p, 8);
    assert Pow2(8) == 256;
    var w := Window(data, 8 * p, 8);
    forall i | 0 <= i < 8 ensures Bit(w, i) == Bit(b, i) {
      WindowByteBit(data, p, i);
    }
    SameBits(w, b, 8);
  }

  lemma WindowByteBit(data: seq<Byte>, p: nat, i: nat)
    requires i < 8
    ensures Bit(Window(data, 8 * p, 8), i) == Bit(ByteAt(data, p), i)
  {
    WindowBit(data, 8 * p, 8, i);
    InByte(p, i);
  }

  lemma InByte(p: nat, i: nat)
    requires i < 8
    ensures (8 * p + i) / 8 == p && (8 * p + i) % 8 == i
  {
  }

  /** The reversed window is the code as the canonical tables number it. */
  lemma {:induction false} RevWindow(data: seq<Byte>, c: nat, n: nat, s: nat)
    requires s <= n
    ensures Rev(Window(data, c, n), s) == CodeAt(data, c, s)
  {
    if s > 0 {
      RevWindow(data, c, n, s - 1);
      WindowBit(data, c, n, s - 1);
    }
  }

  lemma {:induction false} CodeBound(data: seq<Byte>, c: nat, n: nat)
    ensures CodeAt(data, c, n) < Pow2(n)
  {
    if n > 0 {
      CodeBound(data, c, n - 1);
    }
  }
}
