/** The HOST trailer of .a2state files: an append-only chunk writer and a "last valid wins" reader. */
module HostTrailer {
  import opened Basics
  import opened Bits

  type Word = x: nat | x < 0x1_0000_0000

  const WORD: nat := 0x1_0000_0000
  const MAGIC: Word := 0x41325354
  const VERSION_MIN: Word := 1
  const VERSION_MAX: Word := 3
  const HOST_TAG: Word := 0x54534F48
  const HOST_VERSION: Word := 1
  const HOST_SIZE: Word := 8
  const CHUNK_HEADER: nat := 8
  const FILE_MIN: nat := 32

  // ---- 32-bit words, low byte first ----

  function Le32(v: Word): (b: seq<Byte>)
    ensures |b| == 4
  {
    [v % 256, v / 256 % 256, v / 65536 % 256, v / 16777216]
  }

  function ReadLe32(b: seq<Byte>, at: nat): Word
    requires at + 4 <= |b|
  {
    var b0: nat, b1: nat, b2: nat, b3: nat := b[at], b[at + 1], b[at + 2], b[at + 3];
    b0 + b1 * 256 + b2 * 65536 + b3 * 16777216
  }

  method WriteLe32(b: array<Byte>, at: nat, v: Word)
    requires at + 4 <= b.Length
    modifies b
    ensures b[..] == old(b[..at]) + Le32(v) + old(b[at + 4..])
  {
    b[at] := v % 256;
    b[at + 1] := v / 256 % 256;
    b[at + 2] := v / 65536 % 256;
    b[at + 3] := v / 16777216;
  }

  lemma Digits(v: Word)
    ensures v % 256 + v / 256 % 256 * 256 + v / 65536 % 256 * 65536 + v / 16777216 * 16777216 == v
  {
    var a := v / 256;
    assert v / 65536 == a / 256 && v / 16777216 == a / 65536;
  }

  /** Reading undoes writing, wherever the word stands. */
  lemma Le32Back(before: seq<Byte>, v: Word, after: seq<Byte>)
    ensures ReadLe32(before + Le32(v) + after, |before|) == v
  {
    Digits(v);
    var b, k := before + Le32(v) + after, |before|;
    assert b[k] == Le32(v)[0] && b[k + 1] == Le32(v)[1] && b[k + 2] == Le32(v)[2] && b[k + 3] == Le32(v)[3];
  }

  // ---- chunks ----

  /** What a HOST chunk holds: joystick port, key layout (0 numpad, 1 WASD) and swapped buttons. */
  datatype HostState = HostState(port: Byte, layout: Byte, swap: bool)

  predicate Usable(v: HostState) {
    v.port <= 2 && v.layout <= 1
  }

  datatype Chunk = Chunk(tag: Word, payload: seq<Byte>)

  type Sized = c: Chunk | |c.payload| < 0x1_0000_0000 witness Chunk(0, [])

  function ChunkBytes(c: Sized): (b: seq<Byte>)
    ensures |b| == CHUNK_HEADER + |c.payload|
  {
    Le32(c.tag) + Le32(|c.payload|) + c.payload
  }

  function Concat(chunks: seq<Sized>): seq<Byte> {
    if chunks == [] then [] else ChunkBytes(chunks[0]) + Concat(chunks[1..])
  }

  function HostChunk(v: HostState): (c: Sized)
    ensures |c.payload| == HOST_SIZE
  {
    Chunk(HOST_TAG, Le32(HOST_VERSION) + [v.port, v.layout, if v.swap then 1 else 0, 0])
  }

  /** What one chunk says, if it is a HOST chunk of a known version with values in range. */
  function HostOf(c: Chunk): Option<HostState> {
    if c.tag == HOST_TAG && |c.payload| >= HOST_SIZE && ReadLe32(c.payload, 0) == HOST_VERSION
       && c.payload[4] <= 2 && c.payload[5] <= 1
    then Some(HostState(c.payload[4], c.payload[5], c.payload[6] != 0))
    else None
  }

  /** The last usable HOST chunk wins. */
  function LastHost(chunks: seq<Chunk>): Option<HostState> {
    if chunks == [] then None
    else
      var here := HostOf(chunks[|chunks| - 1]);
      if here.Some? then here else LastHost(chunks[..|chunks| - 1])
  }

  /** The chunks found from pos on. The room left is truncated to 32 bits before it is compared. */
  function Walk(bytes: seq<Byte>, pos: nat): seq<Chunk>
    decreases |bytes| - pos
  {
    if pos + CHUNK_HEADER > |bytes| then []
    else
      var len, start := ReadLe32(bytes, pos + 4), pos + CHUNK_HEADER;
      if len > (|bytes| - start) % WORD then []
      else [Chunk(ReadLe32(bytes, pos), bytes[start..start + len])] + Walk(bytes, start + len)
  }

  predicate HeaderOk(bytes: seq<Byte>) {
    && |bytes| >= FILE_MIN
    && ReadLe32(bytes, 0) == MAGIC
    && VERSION_MIN <= ReadLe32(bytes, 4) <= VERSION_MAX
    && 12 <= ReadLe32(bytes, 8) <= |bytes| % WORD
  }

  /** What a file says. */
  function HostIn(bytes: seq<Byte>): Option<HostState> {
    if HeaderOk(bytes) then LastHost(Walk(bytes, ReadLe32(bytes, 8))) else None
  }

  // ---- the reader ----

  /** read_host_state_chunk: safe on every byte string, and exactly the last usable HOST chunk. */
  method ReadHost(bytes: seq<Byte>) returns (found: bool, out: HostState)
    ensures found <==> HostIn(bytes).Some?
    ensures found ==> HostIn(bytes) == Some(out)
    ensures !found ==> out == HostState(0, 0, false)
  {
    hide LastHost, Walk, HostOf;
    found, out := false, HostState(0, 0, false);
    if |bytes| < FILE_MIN {
      return;
    }
    var magic, version, headerSize := ReadLe32(bytes, 0), ReadLe32(bytes, 4), ReadLe32(bytes, 8);
    if magic != MAGIC || version < VERSION_MIN || version > VERSION_MAX || headerSize < 12
       || headerSize > |bytes| % WORD {
      return;
    }
    var pos: nat := headerSize;
    ghost var seen: seq<Chunk> := [];
    LastOfNone();
    while pos + CHUNK_HEADER <= |bytes|
      invariant seen + Walk(bytes, pos) == Walk(bytes, headerSize)
      invariant if found then LastHost(seen) == Some(out) else LastHost(seen) == None && out == HostState(0, 0, false)
      decreases |bytes| - pos
    {
      WalkStep(bytes, pos, seen);
      var tag, len := ReadLe32(bytes, pos), ReadLe32(bytes, pos + 4);
      pos := pos + CHUNK_HEADER;
      if len > (|bytes| - pos) % WORD {
        assert seen + [] == seen;
        break;
      }
      RoomIsRoom(|bytes| - pos);
      var payload := bytes[pos..pos + len];
      LastOfSnoc(seen, Chunk(tag, payload));
      if tag == HOST_TAG && len >= HOST_SIZE {
        HostOfIs(tag, payload);
        var hostVersion := ReadLe32(payload, 0);
        if hostVersion == HOST_VERSION {
          var port, layout, swap := payload[4], payload[5], payload[6];
          if port <= 2 && layout <= 1 {
            out := HostState(port, layout, swap != 0);
            found := true;
          }
        }
      } else {
        HostOfNone(tag, payload);
      }
      seen := seen + [Chunk(tag, payload)];
      pos := pos + len;
    }
    WalkEnd(bytes, pos, seen);
  }

  lemma LastOfNone()
    ensures LastHost([]) == None
  {
  }

  lemma RoomIsRoom(n: nat)
    ensures n % WORD <= n
  {
  }

  lemma HostOfIs(tag: Word, payload: seq<Byte>)
    requires tag == HOST_TAG && |payload| >= HOST_SIZE
    ensures HostOf(Chunk(tag, payload))
            == if ReadLe32(payload, 0) == HOST_VERSION && payload[4] <= 2 && payload[5] <= 1
               then Some(HostState(payload[4], payload[5], payload[6] != 0)) else None
  {
  }

  lemma HostOfNone(tag: Word, payload: seq<Byte>)
    requires !(tag == HOST_TAG && |payload| >= HOST_SIZE)
    ensures HostOf(Chunk(tag, payload)) == None
  {
  }

  lemma LastOfSnoc(seen: seq<Chunk>, c: Chunk)
    ensures LastHost(seen + [c]) == if HostOf(c).Some? then HostOf(c) else LastHost(seen)
  {
    hide HostOf;
    assert (seen + [c])[..|seen|] == seen;
  }

  lemma WalkStep(bytes: seq<Byte>, pos: nat, seen: seq<Chunk>)
    requires pos + CHUNK_HEADER <= |bytes|
    ensures var len, start := ReadLe32(bytes, pos + 4), pos + CHUNK_HEADER;
            if len > (|bytes| - start) % WORD then Walk(bytes, pos) == []
            else
              && start + len <= |bytes|
              && seen + Walk(bytes, pos)
                 == seen + [Chunk(ReadLe32(bytes, pos), bytes[start..start + len])] + Walk(bytes, start + len)
  {
    hide ReadLe32;
    var start := pos + CHUNK_HEADER;
    RoomIsRoom(|bytes| - start);
  }

  lemma WalkEnd(bytes: seq<Byte>, pos: nat, seen: seq<Chunk>)
    ensures pos + CHUNK_HEADER > |bytes| ==> seen + Walk(bytes, pos) == seen
  {
  }

  // ---- the writer ----

  /** The live keyboard joystick, or what the options say. */
  datatype Stick = Stick(port: int, layout: int, swap: bool)

  /** What is saved: values are cut to a byte first, then out-of-range ones become 0. */
  function Chosen(stick: Option<Stick>, options: Option<Stick>): (v: HostState)
    ensures Usable(v)
    ensures stick.Some? && 0 <= stick.value.port <= 2 && 0 <= stick.value.layout <= 1 ==>
              v == HostState(stick.value.port, stick.value.layout, stick.value.swap)
    ensures stick.None? && options.None? ==> v == HostState(0, 0, false)
    ensures stick.None? && options.Some? && 0 <= options.value.port <= 2 && 0 <= options.value.layout <= 1 ==>
              v == HostState(options.value.port, options.value.layout, options.value.swap)
    ensures var s := if stick.Some? then stick else options;
            s.Some? ==>
              && v.swap == s.value.swap
              && (v.port != 0 ==> v.port == s.value.port % 256) && (s.value.port % 256 > 2 ==> v.port == 0)
              && (v.layout != 0 ==> v.layout == s.value.layout % 256) && (s.value.layout % 256 > 1 ==> v.layout == 0)
  {
    var s := if stick.Some? then stick.value else if options.Some? then options.value else Stick(0, 0, false);
    HostState(
      if s.port % 256 > 2 then 0 else s.port % 256,
      if s.layout % 256 > 1 then 0 else s.layout % 256,
      s.swap)
  }

  /** append_host_state_chunk on the bytes of the file. */
  method AppendHost(file: seq<Byte>, stick: Option<Stick>, options: Option<Stick>) returns (longer: seq<Byte>)
    ensures longer == file + ChunkBytes(HostChunk(Chosen(stick, options)))
  {
    hide Chosen, Le32, ReadLe32;
    var bytes := new Byte[16];
    WriteHost(bytes, Chosen(stick, options));
    longer := file + bytes[..];
  }

  method WriteHost(bytes: array<Byte>, v: HostState)
    requires bytes.Length == 16
    modifies bytes
    ensures bytes[..] == ChunkBytes(HostChunk(v))
  {
    hide Le32;
    var cursor := 0;
    WriteLe32(bytes, cursor, HOST_TAG);
    cursor := cursor + 4;
    WriteLe32(bytes, cursor, HOST_SIZE);
    cursor := cursor + 4;
    WriteLe32(bytes, cursor, HOST_VERSION);
    cursor := cursor + 4;
    ghost var words := bytes[..12];
    assert words == Le32(HOST_TAG) + Le32(HOST_SIZE) + Le32(HOST_VERSION);
    bytes[cursor], cursor := v.port, cursor + 1;
    bytes[cursor], cursor := v.layout, cursor + 1;
    bytes[cursor], cursor := if v.swap then 1 else 0, cursor + 1;
    bytes[cursor], cursor := 0, cursor + 1;
    assert bytes[..] == words + [v.port, v.layout, if v.swap then 1 else 0, 0];
  }

  /** The sixteen bytes of a HOST chunk: "HOST", size 8, version 1, then port, layout, swap and padding. */
  lemma HostBytes(v: HostState)
    ensures ChunkBytes(HostChunk(v))
            == [0x48, 0x4F, 0x53, 0x54] + [8, 0, 0, 0] + [1, 0, 0, 0]
               + [v.port, v.layout, if v.swap then 1 else 0, 0]
  {
    hide Le32;
    TagBytes();
  }

  lemma TagBytes()
    ensures Le32(HOST_TAG) == [0x48, 0x4F, 0x53, 0x54] && Le32(HOST_SIZE) == [8, 0, 0, 0]
    ensures Le32(HOST_VERSION) == [1, 0, 0, 0]
  {
  }

  /** The magic number in a file is "TS2A", and versions 1 to 3 are read. */
  lemma MagicBytes()
    ensures Le32(MAGIC) == [0x54, 0x53, 0x32, 0x41] && VERSION_MIN == 1 && VERSION_MAX == 3
  {
  }

  // ---- appending, then reading ----

  /** The header is usable, and from its end on the file is exactly these chunks. */
  ghost predicate Tiled(file: seq<Byte>, chunks: seq<Sized>) {
    && |file| >= 12
    && ReadLe32(file, 0) == MAGIC
    && VERSION_MIN <= ReadLe32(file, 4) <= VERSION_MAX
    && 12 <= ReadLe32(file, 8) <= |file|
    && file[ReadLe32(file, 8)..] == Concat(chunks)
  }

  /** How many of the chunks standing at pos the reader gets to: a question of sizes only. */
  function Reached(total: nat, pos: nat, chunks: seq<Sized>): (n: nat)
    requires pos + |Concat(chunks)| == total
    ensures n <= |chunks|
    decreases |chunks|
  {
    if chunks == [] then 0
    else
      var start, len := pos + CHUNK_HEADER, |chunks[0].payload|;
      if len > (total - start) % WORD then 0 else 1 + Reached(total, start + len, chunks[1..])
  }

  lemma ChunkBack(before: seq<Byte>, c: Sized, after: seq<Byte>)
    ensures var bytes, k := before + ChunkBytes(c) + after, |before|;
            && ReadLe32(bytes, k) == c.tag
            && ReadLe32(bytes, k + 4) == |c.payload|
            && bytes[k + 8..k + 8 + |c.payload|] == c.payload
            && bytes[k + 8 + |c.payload|..] == after
  {
    hide ReadLe32, Le32;
    var bytes, k := before + ChunkBytes(c) + after, |before|;
    var t, l := Le32(c.tag), Le32(|c.payload|);
    Le32Back(before, c.tag, l + c.payload + after);
    Le32Back(before + t, |c.payload|, c.payload + after);
    assert bytes == before + t + (l + c.payload + after);
    assert bytes == (before + t) + l + (c.payload + after);
    assert bytes == (before + t + l) + c.payload + after;
  }

  lemma SplitAt(bytes: seq<Byte>, pos: nat, a: seq<Byte>, b: seq<Byte>)
    requires pos <= |bytes| && bytes[pos..] == a + b
    ensures bytes == bytes[..pos] + a + b
  {
    assert bytes == bytes[..pos] + bytes[pos..];
  }

  /** A chunk standing at pos: the reader takes it and goes on behind it, if its length passes the test. */
  lemma WalkChunk(bytes: seq<Byte>, pos: nat, c: Sized, rest: seq<Byte>)
    requires pos <= |bytes| && bytes[pos..] == ChunkBytes(c) + rest
    ensures var next := pos + CHUNK_HEADER + |c.payload|;
            && next <= |bytes| && bytes[next..] == rest
            && Walk(bytes, pos)
               == if |c.payload| > (|bytes| - pos - CHUNK_HEADER) % WORD then [] else [c] + Walk(bytes, next)
  {
    hide ReadLe32, ChunkBytes, Walk;
    SplitAt(bytes, pos, ChunkBytes(c), rest);
    ChunkBack(bytes[..pos], c, rest);
    WalkStep(bytes, pos, []);
    assert [] + Walk(bytes, pos) == Walk(bytes, pos);
  }

  /** The reader finds the chunks that tile the file, up to the first one it cannot get to. */
  lemma {:induction false} WalkTiled(bytes: seq<Byte>, pos: nat, chunks: seq<Sized>)
    requires pos <= |bytes| && bytes[pos..] == Concat(chunks)
    ensures Walk(bytes, pos) == chunks[..Reached(|bytes|, pos, chunks)]
    decreases |chunks|
  {
    hide ReadLe32, ChunkBytes, Walk, Reached;
    ReachedStep(|bytes|, pos, chunks);
    if chunks == [] {
      WalkEnd(bytes, pos, []);
      assert [] + Walk(bytes, pos) == Walk(bytes, pos);
    } else {
      var c, rest, start := chunks[0], chunks[1..], pos + CHUNK_HEADER;
      WalkChunk(bytes, pos, c, Concat(rest));
      if |c.payload| <= (|bytes| - start) % WORD {
        var next := start + |c.payload|;
        WalkTiled(bytes, next, rest);
        Prefixed(chunks, Reached(|bytes|, next, rest));
      }
    }
  }

  lemma ReachedStep(total: nat, pos: nat, chunks: seq<Sized>)
    requires pos + |Concat(chunks)| == total
    ensures chunks == [] ==> Reached(total, pos, chunks) == 0
    ensures chunks != [] ==>
              var start, len := pos + CHUNK_HEADER, |chunks[0].payload|;
              && start + len + |Concat(chunks[1..])| == total
              && Reached(total, pos, chunks)
                 == if len > (total - start) % WORD then 0 else 1 + Reached(total, start + len, chunks[1..])
  {
    hide ChunkBytes;
  }

  lemma Prefixed(chunks: seq<Sized>, n: nat)
    requires chunks != [] && n < |chunks|
    ensures chunks[..n + 1] == [chunks[0]] + chunks[1..][..n]
  {
  }

  lemma {:induction false} ConcatSnoc(chunks: seq<Sized>, c: Sized)
    ensures Concat(chunks + [c]) == Concat(chunks) + ChunkBytes(c)
  {
    if chunks != [] {
      assert (chunks + [c])[1..] == chunks[1..] + [c];
      ConcatSnoc(chunks[1..], c);
    }
  }

  lemma HeaderKept(file: seq<Byte>, more: seq<Byte>)
    requires |file| >= 12
    ensures ReadLe32(file + more, 0) == ReadLe32(file, 0)
    ensures ReadLe32(file + more, 4) == ReadLe32(file, 4)
    ensures ReadLe32(file + more, 8) == ReadLe32(file, 8)
  {
  }

  /** Appending keeps a file tiled. */
  lemma AppendTiles(file: seq<Byte>, chunks: seq<Sized>, c: Sized)
    requires Tiled(file, chunks)
    ensures Tiled(file + ChunkBytes(c), chunks + [c])
  {
    hide ReadLe32, ChunkBytes;
    ConcatSnoc(chunks, c);
    HeaderKept(file, ChunkBytes(c));
    var h := ReadLe32(file, 8);
    assert (file + ChunkBytes(c))[h..] == file[h..] + ChunkBytes(c);
  }

  /** What the caller can check on sizes alone: the reader accepts the header and gets past every chunk. */
  ghost predicate Readable(file: seq<Byte>, chunks: seq<Sized>)
    requires Tiled(file, chunks)
  {
    && |file| >= FILE_MIN
    && ReadLe32(file, 8) <= |file| % WORD
    && Reached(|file|, ReadLe32(file, 8), chunks) == |chunks|
  }

  lemma HostBack(v: HostState)
    ensures HostOf(HostChunk(v)) == if Usable(v) then Some(v) else None
  {
    Le32Back([], HOST_VERSION, [v.port, v.layout, if v.swap then 1 else 0, 0]);
    var p := HostChunk(v).payload;
    assert [] + Le32(HOST_VERSION) + [v.port, v.layout, if v.swap then 1 else 0, 0] == p;
    assert p[4] == v.port && p[5] == v.layout && p[6] == if v.swap then 1 else 0;
  }

  lemma HostInTiled(file: seq<Byte>, chunks: seq<Sized>)
    requires Tiled(file, chunks)
    ensures HostIn(file)
            == if |file| >= FILE_MIN && ReadLe32(file, 8) <= |file| % WORD
               then LastHost(chunks[..Reached(|file|, ReadLe32(file, 8), chunks)]) else None
  {
    hide ReadLe32, LastHost, Concat;
    WalkTiled(file, ReadLe32(file, 8), chunks);
  }

  function Appended(file: seq<Byte>, v: HostState): seq<Byte> {
    file + ChunkBytes(HostChunk(v))
  }

  /** The number of chunks reached depends on their sizes only. */
  lemma {:induction false} ReachedBySizes(total: nat, pos: nat, a: seq<Sized>, b: seq<Sized>)
    requires |a| == |b| && forall i :: 0 <= i < |a| ==> |a[i].payload| == |b[i].payload|
    requires pos + |Concat(a)| == total
    ensures pos + |Concat(b)| == total && Reached(total, pos, a) == Reached(total, pos, b)
    decreases |a|
  {
    if a != [] {
      var start, len := pos + CHUNK_HEADER, |a[0].payload|;
      assert |Concat(a)| == CHUNK_HEADER + len + |Concat(a[1..])|;
      ReachedBySizes(total, start + len, a[1..], b[1..]);
    }
  }

  /**
   * Appending a HOST chunk and reading gives back what was appended, whatever HOST chunks stood
   * before, exactly when the sizes of the longer file let the reader get past every chunk.
   */
  lemma AppendThenRead(file: seq<Byte>, chunks: seq<Sized>, any: HostState)
    requires Tiled(file, chunks)
    ensures Tiled(Appended(file, any), chunks + [HostChunk(any)])
    ensures (forall v :: Usable(v) ==> HostIn(Appended(file, v)) == Some(v))
            <==> Readable(Appended(file, any), chunks + [HostChunk(any)])
  {
    hide ReadLe32, ChunkBytes, HostChunk, HostIn, LastHost, Reached, HostOf, Readable, Tiled;
    AppendTiles(file, chunks, HostChunk(any));
    var readable := Readable(Appended(file, any), chunks + [HostChunk(any)]);
    forall v | Usable(v) ensures readable ==> HostIn(Appended(file, v)) == Some(v) {
      OneAppend(file, chunks, any, v);
    }
    var v, w := HostState(0, 0, false), HostState(1, 0, false);
    OneAppend(file, chunks, any, v);
    OneAppend(file, chunks, any, w);
  }

  lemma TiledEnd(file: seq<Byte>, chunks: seq<Sized>)
    requires Tiled(file, chunks)
    ensures ReadLe32(file, 8) + |Concat(chunks)| == |file|
  {
  }

  lemma SameHeader(file: seq<Byte>, chunks: seq<Sized>, v: HostState, w: HostState)
    requires Tiled(file, chunks)
    ensures |Appended(file, v)| == |Appended(file, w)| == |file| + 16
    ensures ReadLe32(Appended(file, v), 8) == ReadLe32(Appended(file, w), 8) == ReadLe32(file, 8)
  {
    hide ReadLe32, ChunkBytes;
    HeaderKept(file, ChunkBytes(HostChunk(v)));
    HeaderKept(file, ChunkBytes(HostChunk(w)));
  }

  /** One appended value: it is read back if the sizes allow it, and otherwise makes no difference. */
  lemma OneAppend(file: seq<Byte>, chunks: seq<Sized>, any: HostState, v: HostState)
    requires Tiled(file, chunks) && Tiled(Appended(file, any), chunks + [HostChunk(any)]) && Usable(v)
    ensures if Readable(Appended(file, any), chunks + [HostChunk(any)])
            then HostIn(Appended(file, v)) == Some(v)
            else HostIn(Appended(file, v)) == HostIn(Appended(file, any))
  {
    hide ReadLe32, ChunkBytes, HostChunk, LastHost, HostIn, Concat, HostOf, Reached, Tiled;
    var mine, others := chunks + [HostChunk(v)], chunks + [HostChunk(any)];
    var long, other := Appended(file, v), Appended(file, any);
    AppendTiles(file, chunks, HostChunk(v));
    SameHeader(file, chunks, v, any);
    HostInTiled(long, mine);
    HostInTiled(other, others);
    TiledEnd(long, mine);
    TiledEnd(other, others);
    ReachedBySizes(|long|, ReadLe32(long, 8), mine, others);
    var n := Reached(|long|, ReadLe32(long, 8), mine);
    if n <= |chunks| {
      assert mine[..n] == chunks[..n] && others[..n] == chunks[..n];
    } else {
      assert mine[..n] == mine;
      HostBack(v);
      LastOfSnoc(chunks, HostChunk(v));
    }
  }

  /** Every file below 4 GiB, header included, can be read back. */
  lemma {:induction false} SmallReached(total: nat, pos: nat, chunks: seq<Sized>)
    requires pos + |Concat(chunks)| == total < WORD
    ensures Reached(total, pos, chunks) == |chunks|
    decreases |chunks|
  {
    if chunks != [] {
      SmallReached(total, pos + CHUNK_HEADER + |chunks[0].payload|, chunks[1..]);
    }
  }

  function AppendedAll(file: seq<Byte>, vs: seq<HostState>): seq<Byte> {
    if vs == [] then file else Appended(AppendedAll(file, vs[..|vs| - 1]), vs[|vs| - 1])
  }

  /** After any number of saves to a file, loading gives the last one. */
  lemma {:induction false} LastSaveWins(file: seq<Byte>, chunks: seq<Sized>, vs: seq<HostState>)
    requires Tiled(file, chunks) && vs != [] && Usable(vs[|vs| - 1])
    requires FILE_MIN <= |file| + 16 * |vs| < WORD
    ensures HostIn(AppendedAll(file, vs)) == Some(vs[|vs| - 1])
  {
    hide ReadLe32, ChunkBytes, HostChunk, LastHost, HostIn, Concat, HostOf, Reached, Tiled;
    var k := |vs| - 1;
    var cs := AllTiled(file, chunks, vs[..k]);
    var before, v := AppendedAll(file, vs[..k]), vs[k];
    AppendTiles(before, cs, HostChunk(v));
    SameHeader(before, cs, v, v);
    TiledEnd(Appended(before, v), cs + [HostChunk(v)]);
    SmallReached(|Appended(before, v)|, ReadLe32(before, 8), cs + [HostChunk(v)]);
    OneAppend(before, cs, v, v);
  }

  /** A saved file is tiled by the chunks it had and those that were appended. */
  lemma {:induction false} AllTiled(file: seq<Byte>, chunks: seq<Sized>, vs: seq<HostState>) returns (cs: seq<Sized>)
    requires Tiled(file, chunks)
    ensures Tiled(AppendedAll(file, vs), cs) && |AppendedAll(file, vs)| == |file| + 16 * |vs|
    ensures |cs| == |chunks| + |vs| && cs[..|chunks|] == chunks
  {
    hide Tiled, ChunkBytes, HostChunk;
    if vs == [] {
      cs := chunks;
    } else {
      var k := |vs| - 1;
      var some := AllTiled(file, chunks, vs[..k]);
      AppendTiles(AppendedAll(file, vs[..k]), some, HostChunk(vs[k]));
      cs := some + [HostChunk(vs[k])];
    }
  }

  // ---- where the sizes do not allow it ----

  function Header(size: Word): (b: seq<Byte>)
    requires size >= 12
    ensures |b| == size
  {
    Le32(MAGIC) + Le32(VERSION_MAX) + Le32(size) + seq(size - 12, _ => 0)
  }

  lemma HeaderTiles(size: Word, chunks: seq<Sized>)
    requires size >= 12
    ensures Tiled(Header(size) + Concat(chunks), chunks) && ReadLe32(Header(size) + Concat(chunks), 8) == size
  {
    hide ReadLe32, Le32, Concat;
    var file, pad := Header(size) + Concat(chunks), seq(size - 12, _ => 0);
    Le32Back([], MAGIC, Le32(VERSION_MAX) + Le32(size) + pad + Concat(chunks));
    assert file == [] + Le32(MAGIC) + (Le32(VERSION_MAX) + Le32(size) + pad + Concat(chunks));
    Le32Back(Le32(MAGIC), VERSION_MAX, Le32(size) + pad + Concat(chunks));
    assert file == Le32(MAGIC) + Le32(VERSION_MAX) + (Le32(size) + pad + Concat(chunks));
    Le32Back(Le32(MAGIC) + Le32(VERSION_MAX), size, pad + Concat(chunks));
    assert file == Le32(MAGIC) + Le32(VERSION_MAX) + Le32(size) + (pad + Concat(chunks));
  }

  /** Behind the shortest header the reader accepts, one HOST chunk alone makes too short a file. */
  lemma ShortHeaderUnread(v: HostState)
    ensures Tiled(Header(12), []) && HostIn(Appended(Header(12), v)) == None
  {
    HeaderTiles(12, []);
    assert Header(12) + Concat([]) == Header(12);
  }

  /**
   * Above 4 GiB: the room behind a chunk is truncated to 32 bits, so a chunk that fits can be taken
   * for one that does not, and what is appended behind it is never seen.
   */
  lemma HugeUnread(first: Sized, second: Sized, v: HostState)
    requires |first.payload| == 100 && |second.payload| == WORD - 124
    ensures var file := Header(32) + Concat([first, second]);
            Tiled(file, [first, second]) && HostIn(Appended(file, v)) == None
  {
    hide ReadLe32, ChunkBytes, HostChunk, LastHost, HostIn, HostOf, Tiled, Header;
    var file := Header(32) + Concat([first, second]);
    var cs: seq<Sized> := [first, second] + [HostChunk(v)];
    var long := Appended(file, v);
    HeaderTiles(32, [first, second]);
    AppendTiles(file, [first, second], HostChunk(v));
    SameHeader(file, [first, second], v, v);
    HostInTiled(long, cs);
    TiledEnd(long, cs);
    ConcatTwo(first, second);
    assert |long| == WORD + 40;
    LastOfNone();
  }

  lemma ConcatTwo(a: Sized, b: Sized)
    ensures |Concat([a, b])| == 16 + |a.payload| + |b.payload|
  {
    assert Concat([a, b]) == ChunkBytes(a) + Concat([b]);
    assert Concat([b]) == ChunkBytes(b) + Concat([]);
  }
}
