/** From decompressed PNG data to pixels: the size tests, the rows of an image, and interlacing. */
module PngImage {
  import opened Basics
  import opened Powers
  import opened Bits
  import opened PngFilter
  import opened PngSamples
  import opened PngRows
  import opened Adam7

  const INT_MAX := 0x7FFF_FFFF

  // ---- sizes ----

  /** stbi__mul2sizes_valid. */
  predicate Mul2Valid(a: nat, b: nat) {
    b == 0 || a <= INT_MAX / b
  }

  /** stbi__mad2sizes_valid. */
  predicate Mad2Valid(a: nat, b: nat, add: nat) {
    Mul2Valid(a, b) && a * b + add <= INT_MAX
  }

  /** stbi__mad3sizes_valid. */
  predicate Mad3Valid(a: nat, b: nat, c: nat, add: nat) {
    Mul2Valid(a, b) && Mul2Valid(a * b, c) && a * b * c + add <= INT_MAX
  }

  lemma Mul2Is(a: nat, b: nat)
    ensures Mul2Valid(a, b) <==> a * b <= INT_MAX
  {
    if b > 0 {
      var q, r := INT_MAX / b, INT_MAX % b;
      assert INT_MAX == q * b + r;
      if a <= q {
        MulMono(a, q, b);
      } else {
        MulMono(q + 1, a, b);
        OneLess(q + 1, b);
      }
    }
  }

  /** The tests mean that the sizes themselves fit, when no factor is zero. */
  lemma Mad3Is(a: nat, b: nat, c: nat, add: nat)
    requires c >= 1
    ensures Mad3Valid(a, b, c, add) <==> a * b * c + add <= INT_MAX
  {
    Mul2Is(a, b);
    Mul2Is(a * b, c);
    assert a * b <= a * b * c;
  }

  lemma Mad2Is(a: nat, b: nat, add: nat)
    ensures Mad2Valid(a, b, add) <==> a * b + add <= INT_MAX
  {
    Mul2Is(a, b);
  }

  /** The size tests of stbi__create_png_image_raw. */
  predicate Room(f: Format, x: nat, y: nat) {
    && Mad3Valid(x, y, OutN(f) * SampleBytes(f), 0)
    && Mad3Valid(f.n, x, f.depth, 7)
    && Mad2Valid(RowBytes(f, x), y, RowBytes(f, x))
    && Mad2Valid(RowBytes(f, x), 2, 0)
  }

  // ---- one image without interlacing ----

  function OutRows(f: Format, rows: seq<seq<Byte>>, x: nat): (r: seq<seq<nat>>)
    requires FormatOk(f)
    ensures |r| == |rows|
  {
    seq(|rows|, j requires 0 <= j < |rows| => OutRow(f, rows[j], x))
  }

  /** What the data of an x by y image says. */
  function ImageRows(f: Format, raw: seq<Byte>, x: nat, y: nat): (r: Option<seq<seq<nat>>>)
    requires FormatOk(f)
    ensures r.Some? ==> |r.value| == y
  {
    if !Room(f, x, y) then None
    else
      match DecodeRows(raw, FilterBytes(f), RowBytes(f, x), y, Zeros(RowBytes(f, x)))
      case None => None
      case Some(rows) => Some(OutRows(f, rows, x))
  }

  /** Rows one behind the other. */
  function Flat(rows: seq<seq<nat>>): seq<nat> {
    if rows == [] then [] else Flat(rows[..|rows| - 1]) + rows[|rows| - 1]
  }

  ghost predicate Shaped(rows: seq<seq<nat>>, x: nat, y: nat, m: nat) {
    |rows| == y && forall j :: 0 <= j < y ==> |rows[j]| == x * m
  }

  lemma {:induction false} FlatLength(rows: seq<seq<nat>>, n: nat)
    requires forall j :: 0 <= j < |rows| ==> |rows[j]| == n
    ensures |Flat(rows)| == |rows| * n
  {
    if rows != [] {
      FlatLength(rows[..|rows| - 1], n);
      OneLess(|rows|, n);
    }
  }

  /** Row j stands at j times the stride. */
  lemma {:induction false} FlatRow(rows: seq<seq<nat>>, n: nat, j: nat)
    requires j < |rows| && forall k :: 0 <= k < |rows| ==> |rows[k]| == n
    ensures j * n + n <= |Flat(rows)| && Flat(rows)[j * n..j * n + n] == rows[j]
    decreases |rows|
  {
    hide Flat;
    var k := |rows| - 1;
    var front, last := Flat(rows[..k]), rows[k];
    FlatLength(rows[..k], n);
    FlatStep(rows, k);
    assert rows[..k + 1] == rows;
    if j < k {
      FlatRow(rows[..k], n, j);
      FrontSlice(front, last, j * n, j * n + n);
    } else {
      assert (front + last)[|front|..|front| + n] == last;
    }
  }

  lemma FrontSlice(front: seq<nat>, last: seq<nat>, a: nat, b: nat)
    requires a <= b <= |front|
    ensures (front + last)[a..b] == front[a..b]
  {
  }

  lemma FilterInRow(f: Format, x: nat)
    requires FormatOk(f) && x >= 1
    ensures 1 <= FilterBytes(f) <= RowBytes(f, x)
  {
    assert f.n * x >= f.n;
    if f.depth == 8 {
      assert RowBytes(f, x) == f.n * x;
    } else if f.depth == 16 {
      assert RowBytes(f, x) == 2 * (f.n * x);
    }
  }

  /** stbi__create_png_image_raw: the stored rows one behind the other, or failure. */
  method CreateImageRaw(f: Format, raw: seq<Byte>, x: nat, y: nat)
    returns (ok: bool, out: array<nat>, ghost rows: seq<seq<nat>>)
    requires FormatOk(f) && x >= 1
    ensures fresh(out)
    ensures ok <==> ImageRows(f, raw, x, y).Some?
    ensures ok ==> ImageRows(f, raw, x, y) == Some(rows) && Shaped(rows, x, y, OutN(f)) && out[..] == Flat(rows)
  {
    hide DecodeRows, OutRow, Flat, RowBytes, FilterBytes, Mad3Valid, Mad2Valid;
    out, rows := new nat[0], [];
    if !Mad3Valid(x, y, OutN(f) * SampleBytes(f), 0) {
      return false, out, rows;
    }
    if !Mad3Valid(f.n, x, f.depth, 7) {
      return false, out, rows;
    }
    var width := RowBytes(f, x);
    if !Mad2Valid(width, y, width) || !Mad2Valid(width, 2, 0) {
      return false, out, rows;
    }
    FilterInRow(f, x);
    var curs;
    ok, curs := ReconImage(raw, FilterBytes(f), width, y);
    if !ok {
      return;
    }
    rows := OutRows(f, curs, x);
    RowsShaped(f, curs, x, y);
    out := StoreRows(f, curs, x, y);
  }

  lemma RowsShaped(f: Format, curs: seq<seq<Byte>>, x: nat, y: nat)
    requires FormatOk(f) && |curs| == y && forall j :: 0 <= j < y ==> |curs[j]| == RowBytes(f, x)
    ensures Shaped(OutRows(f, curs, x), x, y, OutN(f))
  {
    hide OutRow, RowBytes;
    forall j | 0 <= j < y ensures |OutRow(f, curs[j], x)| == x * OutN(f) {
      OutRowLength(f, curs[j], x);
    }
  }

  /** Every row is converted and stored at its place in the output. */
  method StoreRows(f: Format, curs: seq<seq<Byte>>, x: nat, y: nat) returns (out: array<nat>)
    requires FormatOk(f) && |curs| == y && forall j :: 0 <= j < y ==> |curs[j]| == RowBytes(f, x)
    ensures fresh(out) && out[..] == Flat(OutRows(f, curs, x))
  {
    hide OutRow, Flat, RowBytes;
    var stride := x * OutN(f);
    out := new nat[y * stride];
    ghost var rows := OutRows(f, curs, x);
    RowsShaped(f, curs, x, y);
    FlatLength(rows, stride);
    FlatNone(rows);
    var j := 0;
    while j < y
      invariant 0 <= j <= y && j * stride <= out.Length
      invariant out[..j * stride] == Flat(rows[..j])
      modifies out
    {
      var dest := DestRow(f, curs[j], x);
      RowPlace(j, y, stride);
      FlatStep(rows, j);
      PutRow(out, j * stride, dest);
      j := j + 1;
    }
    assert rows[..y] == rows;
  }

  lemma FlatNone(rows: seq<seq<nat>>)
    ensures Flat(rows[..0]) == []
  {
  }

  lemma FlatStep(rows: seq<seq<nat>>, j: nat)
    requires j < |rows|
    ensures Flat(rows[..j + 1]) == Flat(rows[..j]) + rows[j]
  {
    assert rows[..j + 1][..j] == rows[..j];
  }

  lemma RowPlace(j: nat, y: nat, stride: nat)
    requires j < y
    ensures (j + 1) * stride == j * stride + stride <= y * stride
  {
    assert (j + 1) * stride <= y * stride;
  }

  method PutRow(out: array<nat>, at: nat, row: seq<nat>)
    requires at + |row| <= out.Length
    modifies out
    ensures out[..at + |row|] == old(out[..at]) + row
  {
    ghost var front := out[..at];
    var k := 0;
    while k < |row|
      invariant 0 <= k <= |row|
      invariant out[..at + k] == front + row[..k]
      modifies out
    {
      out[at + k] := row[k];
      assert row[..k + 1] == row[..k] + [row[k]];
      k := k + 1;
    }
    assert row[..k] == row;
  }

  // ---- the copy loops of one pass ----

  /** Pixel number i of a sequence of pixels of m samples. */
  function BlockIn(s: seq<nat>, i: nat, m: nat): Pixel {
    if i * m + m <= |s| then s[i * m..i * m + m] else []
  }

  ghost function PixelBlock(a: array<nat>, i: nat, m: nat): Pixel
    reads a
  {
    BlockIn(a[..], i, m)
  }

  /** Pixel (x, y) of a picture of width w. */
  ghost function PixelIn(a: array<nat>, w: nat, x: nat, y: nat, m: nat): Pixel
    reads a
  {
    PixelBlock(a, y * w + x, m)
  }

  lemma ColumnFits(x: nat, i: nat, m: nat)
    requires i < x
    ensures i * m + m <= x * m
  {
    assert (i + 1) * m <= x * m;
  }

  /** Pixels of a picture have places of their own. */
  lemma PlaceInside(x: nat, y: nat, w: nat, h: nat)
    requires x < w && y < h
    ensures y * w + x < h * w
  {
    ColumnFits(h, y, w);
  }

  lemma PlacesDiffer(x: nat, y: nat, x': nat, y': nat, w: nat)
    requires x < w && x' < w && y * w + x == y' * w + x'
    ensures x == x' && y == y'
  {
    if y < y' {
      ColumnFits(y', y, w);
    } else if y' < y {
      ColumnFits(y, y', w);
    }
  }

  lemma BlocksApart(i: nat, j: nat, m: nat)
    requires i != j
    ensures i * m + m <= j * m || j * m + m <= i * m
  {
    if i < j {
      ColumnFits(j, i, m);
    } else {
      ColumnFits(i, j, m);
    }
  }

  /** memcpy. */
  method CopyRange(final: array<nat>, a: nat, out: array<nat>, b: nat, m: nat)
    requires final != out && a + m <= final.Length && b + m <= out.Length
    modifies final
    ensures final[..] == old(final[..a]) + out[b..b + m] + old(final[a + m..])
  {
    ghost var was := final[..];
    var k := 0;
    while k < m
      invariant 0 <= k <= m
      invariant final[..] == was[..a] + out[b..b + k] + was[a + k..]
      modifies final
    {
      final[a + k] := out[b + k];
      OneCopied(was, out[..], a, b, k);
      k := k + 1;
    }
  }

  lemma OneCopied(was: seq<nat>, out: seq<nat>, a: nat, b: nat, k: nat)
    requires a + k < |was| && b + k < |out|
    ensures (was[..a] + out[b..b + k] + was[a + k..])[a + k := out[b + k]]
            == was[..a] + out[b..b + (k + 1)] + was[a + (k + 1)..]
  {
  }

  /** memcpy of one pixel. */
  method CopyBlock(final: array<nat>, to: nat, out: array<nat>, from: nat, m: nat)
    requires final != out && to * m + m <= final.Length && from * m + m <= out.Length
    modifies final
    ensures forall i: nat :: i * m + m <= final.Length ==>
              PixelBlock(final, i, m) == if i == to then PixelBlock(out, from, m) else old(PixelBlock(final, i, m))
  {
    hide BlockIn;
    ghost var was, px := final[..], out[from * m..from * m + m];
    BlockIs(out[..], from, m);
    assert out[..][from * m..from * m + m] == px;
    CopyRange(final, to * m, out, from * m, m);
    forall i: nat | i * m + m <= final.Length
      ensures BlockIn(final[..], i, m) == if i == to then px else BlockIn(was, i, m)
    {
      BlockCopied(was, final[..], px, to, i, m);
    }
  }

  lemma BlockIs(s: seq<nat>, i: nat, m: nat)
    requires i * m + m <= |s|
    ensures BlockIn(s, i, m) == s[i * m..i * m + m]
  {
  }

  lemma BlockAt(s: seq<nat>, i: nat, m: nat, at: nat)
    requires i * m == at && at + m <= |s|
    ensures BlockIn(s, i, m) == s[at..at + m]
  {
  }

  lemma BlockCopied(was: seq<nat>, now: seq<nat>, px: seq<nat>, to: nat, i: nat, m: nat)
    requires to * m + m <= |was| && i * m + m <= |was| && |px| == m
    requires now == was[..to * m] + px + was[to * m + m..]
    ensures BlockIn(now, i, m) == if i == to then px else BlockIn(was, i, m)
  {
    hide BlockIn;
    BlockIs(was, i, m);
    BlockIs(now, i, m);
    SliceKept(was, now, px, to * m, i * m, m);
    if i != to {
      BlocksApart(i, to, m);
    }
  }

  lemma SliceKept(was: seq<nat>, now: seq<nat>, px: seq<nat>, a: nat, c: nat, m: nat)
    requires a + m <= |was| && c + m <= |was| && |px| == m && now == was[..a] + px + was[a + m..]
    ensures a == c ==> now[c..c + m] == px
    ensures c + m <= a || a + m <= c ==> now[c..c + m] == was[c..c + m]
  {
  }

  method CopyPixel(final: array<nat>, w: nat, h: nat, x: nat, y: nat, m: nat, out: array<nat>, from: nat)
    requires final != out && final.Length == h * w * m && x < w && y < h && from * m + m <= out.Length
    modifies final
    ensures forall y', x' :: 0 <= y' < h && 0 <= x' < w ==>
              PixelIn(final, w, x', y', m)
              == if x' == x && y' == y then PixelBlock(out, from, m) else old(PixelIn(final, w, x', y', m))
  {
    hide PixelBlock;
    PlaceInside(x, y, w, h);
    ColumnFits(h * w, y * w + x, m);
    CopyBlock(final, y * w + x, out, from, m);
    forall y', x' | 0 <= y' < h && 0 <= x' < w
      ensures PixelIn(final, w, x', y', m)
              == if x' == x && y' == y then PixelBlock(out, from, m) else old(PixelIn(final, w, x', y', m))
    {
      PlaceInside(x', y', w, h);
      ColumnFits(h * w, y' * w + x', m);
      if y' * w + x' == y * w + x {
        PlacesDiffer(x', y', x, y, w);
      }
    }
  }

  // ---- interlaced images ----

  /** Bytes of pass data: every row has a filter byte. */
  function PassBytes(f: Format, p: nat, w: nat, h: nat): nat
    requires p < 7 && w >= 1 && h >= 1
  {
    (RowBytes(f, PassW(p, w)) + 1) * PassH(p, h)
  }

  predicate EmptyPass(p: nat, w: nat, h: nat)
    requires p < 7 && w >= 1 && h >= 1
  {
    PassW(p, w) == 0 || PassH(p, h) == 0
  }

  /** The rows of passes p..6, each pass decoded from where the one before it ended. */
  function Passes(f: Format, data: seq<Byte>, w: nat, h: nat, p: nat): (r: Option<seq<seq<seq<nat>>>>)
    requires FormatOk(f) && p <= 7 && w >= 1 && h >= 1
    ensures r.Some? ==> |r.value| == 7 - p
    decreases 7 - p
  {
    if p == 7 then Some([])
    else if EmptyPass(p, w, h) then Prepend([], Passes(f, data, w, h, p + 1))
    else
      match ImageRows(f, data, PassW(p, w), PassH(p, h))
      case None => None
      case Some(rows) =>
        if |data| < PassBytes(f, p, w, h) then None
        else Prepend(rows, Passes(f, data[PassBytes(f, p, w, h)..], w, h, p + 1))
  }

  function Prepend(rows: seq<seq<nat>>, rest: Option<seq<seq<seq<nat>>>>): Option<seq<seq<seq<nat>>>> {
    match rest
    case None => None
    case Some(more) => Some([rows] + more)
  }

  /** What a decoded pass has for the pixel (x, y). */
  function PassPixel(rows: seq<seq<nat>>, p: nat, x: nat, y: nat, m: nat): Pixel
    requires p < 7
  {
    if InY(p, y) < |rows| && InX(p, x) * m + m <= |rows[InY(p, y)]|
    then PixelAt(rows[InY(p, y)], InX(p, x), m) else []
  }

  /** The copy loops have reached row j, column i of the pass, and (x, y) lies before that. */
  ghost predicate Done(p: nat, x: nat, y: nat, j: nat, i: nat)
    requires p < 7
  {
    PassOf(x, y) == p && (InY(p, y) < j || (InY(p, y) == j && InX(p, x) < i))
  }

  /** One copied pixel is one more pixel done: no pixel is written twice. */
  lemma DoneStep(p: nat, j: nat, i: nat)
    requires p < 7
    ensures forall x: nat, y: nat ::
              Done(p, x, y, j, i + 1) <==> Done(p, x, y, j, i) || (x == OutX(p, i) && y == OutY(p, j))
    ensures PassOf(OutX(p, i), OutY(p, j)) == p && InX(p, OutX(p, i)) == i && InY(p, OutY(p, j)) == j
    ensures !Done(p, OutX(p, i), OutY(p, j), j, i)
  {
    hide PassOf, InX, InY, OutX, OutY;
    LandsOn(p, i, j, OutX(p, i), OutY(p, j));
    forall x: nat, y: nat
      ensures Done(p, x, y, j, i + 1) <==> Done(p, x, y, j, i) || (x == OutX(p, i) && y == OutY(p, j))
    {
      LandsOn(p, i, j, x, y);
    }
  }

  /** A pixel of the image is inside its pass. */
  lemma PixelInPass(x: nat, y: nat, w: nat, h: nat)
    requires x < w && y < h
    ensures InX(PassOf(x, y), x) < PassW(PassOf(x, y), w)
    ensures InY(PassOf(x, y), y) < PassH(PassOf(x, y), h)
  {
    hide PassOf, InX, InY, OutX, OutY, PassW, PassH;
    var p := PassOf(x, y);
    LandsOn(p, InX(p, x), InY(p, y), x, y);
    ColumnInside(p, w, InX(p, x));
    RowInside(p, h, InY(p, y));
  }

  lemma RowDone(p: nat, w: nat, h: nat, j: nat)
    requires p < 7 && w >= 1 && h >= 1
    ensures forall x: nat, y: nat :: x < w && y < h ==>
              (Done(p, x, y, j, PassW(p, w)) <==> Done(p, x, y, j + 1, 0))
  {
    hide PassOf, InX, InY, PassW, PassH;
    forall x: nat, y: nat | x < w && y < h
      ensures Done(p, x, y, j, PassW(p, w)) <==> Done(p, x, y, j + 1, 0)
    {
      PixelInPass(x, y, w, h);
    }
  }

  lemma AllDone(p: nat, w: nat, h: nat)
    requires p < 7 && w >= 1 && h >= 1
    ensures forall x: nat, y: nat :: x < w && y < h ==> (Done(p, x, y, PassH(p, h), 0) <==> PassOf(x, y) == p)
  {
    hide PassOf, InX, InY, PassW, PassH;
    forall x: nat, y: nat | x < w && y < h ensures Done(p, x, y, PassH(p, h), 0) <==> PassOf(x, y) == p {
      PixelInPass(x, y, w, h);
    }
  }

  /** Pixel (i, j) of a pass in its flat output. */
  lemma FlatPixel(out: array<nat>, rows: seq<seq<nat>>, x: nat, y: nat, m: nat, i: nat, j: nat)
    requires Shaped(rows, x, y, m) && out[..] == Flat(rows) && i < x && j < y
    ensures (j * x + i) * m + m <= out.Length && i * m + m <= |rows[j]|
    ensures PixelBlock(out, j * x + i, m) == PixelAt(rows[j], i, m)
  {
    hide Flat, BlockIn;
    FlatRow(rows, x * m, j);
    ColumnFits(x, i, m);
    PixelPlace(i, j, x, m);
    var s, a, n, b := out[..], j * (x * m), x * m, i * m;
    SliceInside(s, a, n, b, m);
    BlockAt(s, j * x + i, m, a + b);
  }

  lemma SliceInside(s: seq<nat>, a: nat, n: nat, b: nat, m: nat)
    requires a + n <= |s| && b + m <= n
    ensures s[a..a + n][b..b + m] == s[a + b..a + b + m]
  {
    var inner, outer := s[a..a + n][b..b + m], s[a + b..a + b + m];
    assert |inner| == |outer|;
    assert forall k :: 0 <= k < m ==> inner[k] == outer[k];
    assert inner == outer;
  }

  lemma PixelPlace(i: nat, j: nat, x: nat, m: nat)
    ensures (j * x + i) * m == j * (x * m) + i * m
  {
  }

  /** The copy loops of one pass: its pixels appear in the picture, the others stay. */
  method Scatter(final: array<nat>, w: nat, h: nat, p: nat, out: array<nat>, ghost rows: seq<seq<nat>>, m: nat)
    requires p < 7 && w >= 1 && h >= 1 && final != out && final.Length == h * w * m
    requires Shaped(rows, PassW(p, w), PassH(p, h), m) && out[..] == Flat(rows)
    modifies final
    ensures forall y, x :: 0 <= y < h && 0 <= x < w ==>
              PixelIn(final, w, x, y, m)
              == if PassOf(x, y) == p then PassPixel(rows, p, x, y, m) else old(PixelIn(final, w, x, y, m))
  {
    hide PassOf, InX, InY, PassW, PassH, OutX, OutY, PassPixel, Done, PixelIn, Flat, PixelBlock;
    var xs, ys := PassW(p, w), PassH(p, h);
    NoneDone(p);
    var j := 0;
    while j < ys
      invariant 0 <= j <= ys
      invariant forall y, x :: 0 <= y < h && 0 <= x < w ==>
                  PixelIn(final, w, x, y, m)
                  == if Done(p, x, y, j, 0) then PassPixel(rows, p, x, y, m) else old(PixelIn(final, w, x, y, m))
      modifies final
    {
      var i := 0;
      while i < xs
        invariant 0 <= i <= xs
        invariant forall y, x :: 0 <= y < h && 0 <= x < w ==>
                    PixelIn(final, w, x, y, m)
                    == if Done(p, x, y, j, i) then PassPixel(rows, p, x, y, m) else old(PixelIn(final, w, x, y, m))
        modifies final
      {
        ColumnInside(p, w, i);
        RowInside(p, h, j);
        DoneStep(p, j, i);
        FlatPixel(out, rows, xs, ys, m, i, j);
        PassPixelIs(rows, p, i, j, m);
        CopyPixel(final, w, h, OutX(p, i), OutY(p, j), m, out, j * xs + i);
        i := i + 1;
      }
      RowDone(p, w, h, j);
      j := j + 1;
    }
    AllDone(p, w, h);
  }

  lemma NoneDone(p: nat)
    requires p < 7
    ensures forall x: nat, y: nat :: !Done(p, x, y, 0, 0)
  {
  }

  lemma PassPixelIs(rows: seq<seq<nat>>, p: nat, i: nat, j: nat, m: nat)
    requires p < 7 && j < |rows| && i * m + m <= |rows[j]|
    ensures PassPixel(rows, p, OutX(p, i), OutY(p, j), m) == PixelAt(rows[j], i, m)
  {
    hide PassOf, InX, InY, OutX, OutY;
    LandsOn(p, i, j, OutX(p, i), OutY(p, j));
  }

  /** Enough data stands behind a decoded image. */
  lemma ImageShape(f: Format, data: seq<Byte>, x: nat, y: nat)
    requires FormatOk(f) && ImageRows(f, data, x, y).Some?
    ensures |data| >= (RowBytes(f, x) + 1) * y
  {
    hide DecodeRows, OutRow, RowBytes, Room;
    if |data| < (RowBytes(f, x) + 1) * y {
      ShortRaw(data, FilterBytes(f), RowBytes(f, x), y, Zeros(RowBytes(f, x)));
    }
  }

  /** The picture shows, at every pixel of a pass before p, what that pass says. */
  ghost predicate Shows(final: array<nat>, w: nat, h: nat, passes: seq<seq<seq<nat>>>, p: nat, m: nat)
    requires p <= 7 && |passes| >= p
    reads final
  {
    forall y, x :: 0 <= y < h && 0 <= x < w && PassOf(x, y) < p ==>
      PixelIn(final, w, x, y, m) == PassPixel(passes[PassOf(x, y)], PassOf(x, y), x, y, m)
  }

  /** The size test for the whole picture. */
  predicate OutputFits(f: Format, w: nat, h: nat) {
    Mad3Valid(w, h, OutN(f) * SampleBytes(f), 0)
  }

  /** stbi__create_png_image for interlaced data. */
  method CreateInterlaced(f: Format, data: seq<Byte>, w: nat, h: nat) returns (ok: bool, final: array<nat>)
    requires FormatOk(f) && w >= 1 && h >= 1
    ensures fresh(final)
    ensures ok <==> OutputFits(f, w, h) && Passes(f, data, w, h, 0).Some?
    ensures ok ==> final.Length == h * w * OutN(f) && Shows(final, w, h, Passes(f, data, w, h, 0).value, 7, OutN(f))
  {
    hide Passes, PassOf, InX, InY, PassW, PassH, PassPixel, ImageRows, Chain, Shows, OutputFits;
    var m := OutN(f);
    final := new nat[0];
    if !OutputFits(f, w, h) {
      return false, final;
    }
    final := new nat[h * w * m];
    ghost var all := Passes(f, data, w, h, 0);
    ghost var done: seq<seq<seq<nat>>> := [];
    PassesStart(data, all);
    ShowsNone(final, w, h, m);
    var pos: nat, p: nat := 0, 0;
    while p < 7
      invariant p <= 7 && |done| == p && pos <= |data|
      invariant Chain(done, Passes(f, data[pos..], w, h, p)) == all
      invariant Shows(final, w, h, done, p, m)
      modifies final
    {
      ghost var rows;
      ok, pos, rows := OnePass(f, final, w, h, data, pos, p, done);
      if !ok {
        return;
      }
      done := done + [rows];
      p := p + 1;
    }
    PassesEnd(f, data[pos..], w, h, done);
    ok := true;
  }

  /** One pass: decoded, copied into the picture, and the input advanced by its bytes. */
  method OnePass(f: Format, final: array<nat>, w: nat, h: nat, data: seq<Byte>, pos: nat, p: nat,
                 ghost done: seq<seq<seq<nat>>>)
    returns (ok: bool, next: nat, ghost rows: seq<seq<nat>>)
    requires FormatOk(f) && p < 7 && w >= 1 && h >= 1 && final.Length == h * w * OutN(f)
    requires |done| == p && pos <= |data| && Shows(final, w, h, done, p, OutN(f))
    modifies final
    ensures var here := Chain(done, Passes(f, data[pos..], w, h, p));
            && next <= |data|
            && (!ok ==> here.None?)
            && (ok ==> next == pos + if EmptyPass(p, w, h) then 0 else PassBytes(f, p, w, h))
            && (ok ==> here == Chain(done + [rows], Passes(f, data[next..], w, h, p + 1)))
    ensures ok ==> Shows(final, w, h, done + [rows], p + 1, OutN(f))
  {
    hide Passes, PassOf, InX, InY, PassW, PassH, PassPixel, ImageRows, Chain, Shows, RowBytes, Flat;
    var m := OutN(f);
    PassStep(f, data, pos, w, h, p, done);
    var x, y := PassW(p, w), PassH(p, h);
    ok, next, rows := true, pos, [];
    if x != 0 && y != 0 {
      var out;
      ghost var passRows;
      ok, out, passRows := CreateImageRaw(f, data[pos..], x, y);
      if !ok {
        return;
      }
      ScatterShows(final, w, h, p, out, passRows, m, done);
      rows := passRows;
      next := pos + (RowBytes(f, x) + 1) * y;
    } else {
      EmptyPassShows(final, w, h, done, p, m);
    }
  }

  method ScatterShows(final: array<nat>, w: nat, h: nat, p: nat, out: array<nat>, ghost rows: seq<seq<nat>>, m: nat,
                      ghost done: seq<seq<seq<nat>>>)
    requires p < 7 && w >= 1 && h >= 1 && final != out && final.Length == h * w * m
    requires Shaped(rows, PassW(p, w), PassH(p, h), m) && out[..] == Flat(rows)
    requires |done| == p && Shows(final, w, h, done, p, m)
    modifies final
    ensures Shows(final, w, h, done + [rows], p + 1, m)
  {
    hide PassOf, InX, InY, PassW, PassH, PassPixel, PixelIn, Flat;
    Scatter(final, w, h, p, out, rows, m);
  }

  lemma ShowsNone(final: array<nat>, w: nat, h: nat, m: nat)
    ensures Shows(final, w, h, [], 0, m)
  {
  }

  function Chain(done: seq<seq<seq<nat>>>, rest: Option<seq<seq<seq<nat>>>>): Option<seq<seq<seq<nat>>>> {
    match rest
    case None => None
    case Some(more) => Some(done + more)
  }

  lemma PassesStart(data: seq<Byte>, all: Option<seq<seq<seq<nat>>>>)
    ensures Chain([], all) == all && data[0..] == data
  {
    assert all.Some? ==> [] + all.value == all.value;
  }

  lemma PassesEnd(f: Format, data: seq<Byte>, w: nat, h: nat, done: seq<seq<seq<nat>>>)
    requires FormatOk(f) && w >= 1 && h >= 1
    ensures Chain(done, Passes(f, data, w, h, 7)) == Some(done)
  {
    assert done + [] == done;
  }

  lemma PassStep(f: Format, data: seq<Byte>, pos: nat, w: nat, h: nat, p: nat, done: seq<seq<seq<nat>>>)
    requires FormatOk(f) && pos <= |data| && w >= 1 && h >= 1 && p < 7
    ensures var here := Chain(done, Passes(f, data[pos..], w, h, p));
            if EmptyPass(p, w, h) then here == Chain(done + [[]], Passes(f, data[pos..], w, h, p + 1))
            else
              var r := ImageRows(f, data[pos..], PassW(p, w), PassH(p, h));
              && (r.None? ==> here.None?)
              && (r.Some? ==>
                    && |data| >= pos + PassBytes(f, p, w, h)
                    && here == Chain(done + [r.value], Passes(f, data[pos + PassBytes(f, p, w, h)..], w, h, p + 1)))
  {
    hide ImageRows, PassW, PassH, RowBytes;
    if EmptyPass(p, w, h) {
      ChainPrepend(done, [], Passes(f, data[pos..], w, h, p + 1));
    } else {
      var r := ImageRows(f, data[pos..], PassW(p, w), PassH(p, h));
      if r.Some? {
        ImageShape(f, data[pos..], PassW(p, w), PassH(p, h));
        var k := PassBytes(f, p, w, h);
        assert data[pos..][k..] == data[pos + k..];
        ChainPrepend(done, r.value, Passes(f, data[pos + k..], w, h, p + 1));
      }
    }
  }

  lemma ChainPrepend(done: seq<seq<seq<nat>>>, rows: seq<seq<nat>>, rest: Option<seq<seq<seq<nat>>>>)
    ensures Chain(done, Prepend(rows, rest)) == Chain(done + [rows], rest)
  {
    if rest.Some? {
      assert done + ([rows] + rest.value) == done + [rows] + rest.value;
    }
  }

  /** An empty pass has no pixel in the picture. */
  lemma EmptyPassShows(final: array<nat>, w: nat, h: nat, done: seq<seq<seq<nat>>>, p: nat, m: nat)
    requires p < 7 && |done| == p && w >= 1 && h >= 1
    requires EmptyPass(p, w, h) && Shows(final, w, h, done, p, m)
    ensures Shows(final, w, h, done + [[]], p + 1, m)
  {
    hide PassOf, InX, InY, PassW, PassH, PassPixel, PixelIn;
    forall y, x | 0 <= y < h && 0 <= x < w ensures PassOf(x, y) != p {
      PixelInPass(x, y, w, h);
    }
  }
}
