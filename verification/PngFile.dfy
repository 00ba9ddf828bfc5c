/** From the IDAT data of a PNG to its pixels: inflate, then reconstruction, and which sizes are refused. */
module PngFile {
  import opened Basics
  import opened Bits
  import opened ZOutputs
  import opened DeflateStream
  import opened PngSamples
  import opened PngRows
  import opened Adam7
  import opened PngImage
  import opened PngInterlace

  // ---- which sizes are let through ----

  /** What the IHDR checks let through. */
  predicate SizeOk(f: Format, w: nat, h: nat) {
    && FormatOk(f) && 1 <= w <= 0x100_0000 && 1 <= h <= 0x100_0000
    && w * f.n * h <= 0x4000_0000
  }

  /** The initial guess for the size of the decoded data. */
  function RawLength(f: Format, w: nat, h: nat): (r: nat)
    ensures r >= h
  {
    (w * f.depth + 7) / 8 * h * f.n + h
  }

  /** The guess is the fewest whole bytes for every row of every channel, and a filter byte for every row. */
  lemma RawLengthIs(f: Format, w: nat, h: nat) returns (line: nat)
    ensures 8 * line - 8 < w * f.depth <= 8 * line
    ensures RawLength(f, w, h) == line * h * f.n + h
  {
    line := (w * f.depth + 7) / 8;
  }

  /** Bytes of the stored image. */
  function OutBytes(f: Format, w: nat, h: nat): nat {
    w * h * (OutN(f) * SampleBytes(f))
  }

  /** The guess and the stored image fit an int. */
  predicate InterlacedFits(f: Format, w: nat, h: nat) {
    RawLength(f, w, h) <= INT_MAX && OutBytes(f, w, h) <= INT_MAX
  }

  /** And so do the rows with one row more. */
  predicate PlainFits(f: Format, w: nat, h: nat) {
    InterlacedFits(f, w, h) && RowBytes(f, w) * h + RowBytes(f, w) <= INT_MAX
  }

  /** A row needs at most the bytes of whole samples. */
  lemma RowBound(f: Format, x: nat)
    requires FormatOk(f) && x >= 1
    ensures RowBytes(f, x) <= SampleBytes(f) * (f.n * x)
    ensures f.depth == 16 ==> RowBytes(f, x) == 2 * (f.n * x)
  {
    var k := f.n * x;
    assert k >= 1;
    SampleBits(k, f.depth);
  }

  lemma SampleBits(k: nat, depth: nat)
    requires k >= 1 && depth in {1, 2, 4, 8, 16}
    ensures (k * depth + 7) / 8 <= if depth == 16 then 2 * k else k
    ensures depth == 16 ==> (k * depth + 7) / 8 == 2 * k
  {
    if depth == 1 {
    } else if depth == 2 {
    } else if depth == 4 {
    } else if depth == 8 {
    } else {
    }
  }

  lemma Products(n: nat, w: nat, h: nat)
    ensures n * w * h == w * n * h == n * (w * h) == w * h * n
  {
  }

  lemma Below(a: nat, a': nat, b: nat, b': nat)
    requires a <= a' && b <= b'
    ensures a * b <= a' * b'
  {
    assert a * b <= a' * b;
    assert a' * b <= a' * b';
  }

  /** Widths that pass IHDR pass the tests on one row. */
  lemma RowRoom(f: Format, w: nat, h: nat, x: nat)
    requires SizeOk(f, w, h) && 1 <= x <= w
    ensures Mad3Valid(f.n, x, f.depth, 7) && Mad2Valid(RowBytes(f, x), 2, 0)
    ensures f.n * x <= 0x400_0000
  {
    hide RowBytes, Mad3Valid, Mad2Valid;
    RowBound(f, x);
    Below(f.n, 4, x, 0x100_0000);
    Below(f.n * x, 0x400_0000, f.depth, 16);
    Mad3Is(f.n, x, f.depth, 7);
    Mad2Is(RowBytes(f, x), 2, 0);
  }

  lemma Channels(f: Format)
    requires FormatOk(f)
    ensures 1 <= f.n <= OutN(f) <= 4 + 1 && 1 <= SampleBytes(f) <= 2
    ensures OutN(f) * SampleBytes(f) >= 1 && SampleBytes(f) * f.n <= OutN(f) * SampleBytes(f)
  {
    if f.depth == 16 {
    } else {
    }
  }

  /** For an image that passes IHDR the size tests come down to two. */
  lemma RoomIs(f: Format, w: nat, h: nat)
    requires SizeOk(f, w, h)
    ensures Room(f, w, h) <==> OutBytes(f, w, h) <= INT_MAX && RowBytes(f, w) * h + RowBytes(f, w) <= INT_MAX
    ensures OutputFits(f, w, h) <==> OutBytes(f, w, h) <= INT_MAX
  {
    hide RowBytes, Mad3Valid, Mad2Valid;
    RowRoom(f, w, h, w);
    Channels(f);
    Mad3Is(w, h, OutN(f) * SampleBytes(f), 0);
    Mad2Is(RowBytes(f, w), h, RowBytes(f, w));
  }

  /** With at most 8 bits only the stored image can be too large. */
  lemma EightBitsFit(f: Format, w: nat, h: nat)
    requires SizeOk(f, w, h) && f.depth <= 8
    ensures PlainFits(f, w, h) <==> w * h * OutN(f) <= INT_MAX
    ensures InterlacedFits(f, w, h) <==> w * h * OutN(f) <= INT_MAX
  {
    hide RowBytes, RawLength;
    RowRoom(f, w, h, w);
    RowBound(f, w);
    Below(RowBytes(f, w), f.n * w, h, h);
    Products(f.n, w, h);
    SmallGuess(f, w, h);
  }

  lemma SmallGuess(f: Format, w: nat, h: nat)
    requires SizeOk(f, w, h) && f.depth <= 8
    ensures RawLength(f, w, h) <= w * f.n * h + h
  {
    var line := (w * f.depth + 7) / 8;
    SampleBits(w, f.depth);
    Below(line, w, h, h);
    Below(line * h, w * h, f.n, f.n);
    Products(f.n, w, h);
  }

  /** A gray image of 2^30 pixels passes IHDR, is decoded without alpha, and is refused when alpha is wanted. */
  lemma AlphaRefused()
    ensures var plain, alpha := Format(1, 8, true, false), Format(1, 8, true, true);
            && SizeOk(plain, 32768, 32768) && PlainFits(plain, 32768, 32768) && InterlacedFits(plain, 32768, 32768)
            && SizeOk(alpha, 32768, 32768) && !PlainFits(alpha, 32768, 32768) && !InterlacedFits(alpha, 32768, 32768)
  {
    EightBitsFit(Format(1, 8, true, false), 32768, 32768);
    EightBitsFit(Format(1, 8, true, true), 32768, 32768);
  }

  // ---- passes are never refused when the image is not ----

  lemma PassSmaller(p: nat, w: nat, h: nat)
    requires p < 7 && w >= 1 && h >= 1
    ensures PassW(p, w) <= w && PassH(p, h) <= h
    ensures p < 6 ==> 2 * PassW(p, w) <= w + 1 && 2 * PassH(p, h) <= h + 1
    ensures p == 6 && PassH(p, h) >= 1 ==> PassH(p, h) + 1 <= h
  {
    if p <= 1 {
    } else if p <= 3 {
    } else if p <= 5 {
    } else {
    }
  }

  /** One more row of a pass still fits an int. */
  lemma PassRows(f: Format, w: nat, h: nat, p: nat)
    requires SizeOk(f, w, h) && p < 7 && !EmptyPass(p, w, h) && OutBytes(f, w, h) <= INT_MAX
    ensures RowBytes(f, PassW(p, w)) * PassH(p, h) + RowBytes(f, PassW(p, w)) <= INT_MAX
  {
    hide RowBytes, PassW, PassH;
    var x, y := PassW(p, w), PassH(p, h);
    var b := RowBytes(f, x);
    PassSmaller(p, w, h);
    RowBound(f, x);
    Channels(f);
    assert b * y + b == b * (y + 1);
    if p == 6 {
      Below(f.n, f.n, x, w);
      WideRows(f, w, h, b, y + 1);
    } else {
      HalfRows(f.n, w, h, x, y);
      Below(b, 2 * (f.n * x), y + 1, y + 1);
    }
  }

  lemma WideRows(f: Format, w: nat, h: nat, b: nat, rows: nat)
    requires SizeOk(f, w, h) && OutBytes(f, w, h) <= INT_MAX && rows <= h && b <= SampleBytes(f) * (f.n * w)
    ensures b * rows <= INT_MAX
  {
    var s, m := SampleBytes(f), OutN(f) * SampleBytes(f);
    Channels(f);
    Below(b, s * (f.n * w), rows, h);
    Below(w * h, w * h, s * f.n, m);
    Exchange3(s, f.n, w, h);
  }

  lemma Exchange3(s: nat, n: nat, w: nat, h: nat)
    ensures s * (n * w) * h == w * h * (s * n)
  {
    assert s * (n * w) == (s * n) * w;
  }

  lemma HalfRows(n: nat, w: nat, h: nat, x: nat, y: nat)
    requires n <= 4 && w <= 0x100_0000 && h <= 0x100_0000 && w * n * h <= 0x4000_0000
    requires 2 * x <= w + 1 && 2 * y <= h + 1
    ensures 2 * (n * x) * (y + 1) <= INT_MAX
  {
    HalfProduct(n, w, h);
    Below(2 * x, w + 1, 2 * y + 2, h + 3);
    Below(n, n, (2 * x) * (2 * y + 2), (w + 1) * (h + 3));
    Quadruple(n, x, y);
  }

  lemma HalfProduct(n: nat, w: nat, h: nat)
    requires n <= 4 && w <= 0x100_0000 && h <= 0x100_0000 && w * n * h <= 0x4000_0000
    ensures n * ((w + 1) * (h + 3)) <= 0x6000_0000
  {
    Expanded(w, h);
    Spread4(n, w * h, 3 * w, h, 3);
    Products(n, w, h);
    Below(n, 4, 3 * w, 3 * 0x100_0000);
    Below(n, 4, h, 0x100_0000);
  }

  lemma Expanded(w: nat, h: nat)
    ensures (w + 1) * (h + 3) == w * h + 3 * w + h + 3
  {
  }

  lemma Quadruple(n: nat, x: nat, y: nat)
    ensures n * ((2 * x) * (2 * y + 2)) == 2 * (2 * (n * x) * (y + 1))
  {
    assert (2 * x) * (2 * y + 2) == 4 * (x * (y + 1));
    assert n * (4 * (x * (y + 1))) == 4 * (n * (x * (y + 1)));
    assert n * (x * (y + 1)) == (n * x) * (y + 1);
    assert 2 * (n * x) * (y + 1) == 2 * ((n * x) * (y + 1));
  }

  lemma Spread4(n: nat, a: nat, b: nat, c: nat, d: nat)
    ensures n * (a + b + c + d) == n * a + n * b + n * c + n * d
  {
  }

  lemma PassesHaveRoom(f: Format, w: nat, h: nat)
    requires SizeOk(f, w, h) && OutBytes(f, w, h) <= INT_MAX
    ensures PassesRoom(f, w, h)
  {
    hide RowBytes, PassW, PassH, Mad3Valid, Mad2Valid;
    forall p | 0 <= p < 7 && !EmptyPass(p, w, h) ensures Room(f, PassW(p, w), PassH(p, h)) {
      var x, y, m := PassW(p, w), PassH(p, h), OutN(f) * SampleBytes(f);
      PassSmaller(p, w, h);
      RowRoom(f, w, h, x);
      Channels(f);
      Below(x, w, y, h);
      Below(x * y, w * h, m, m);
      Mad3Is(x, y, m, 0);
      PassRows(f, w, h, p);
      Mad2Is(RowBytes(f, x), y, RowBytes(f, x));
    }
  }

  // ---- the decoded data is never too long ----

  function Area(w: nat, h: nat, p: nat): nat
    requires p <= 7 && w >= 1 && h >= 1
    decreases 7 - p
  {
    if p == 7 then 0 else PassW(p, w) * PassH(p, h) + Area(w, h, p + 1)
  }

  lemma WholeArea(w: nat, h: nat)
    requires w >= 1 && h >= 1
    ensures Area(w, h, 0) == w * h
  {
    hide PassW, PassH;
    PassSizesSum(w, h);
    assert Area(w, h, 6) == PassW(6, w) * PassH(6, h);
    assert Area(w, h, 4) == PassW(4, w) * PassH(4, h) + PassW(5, w) * PassH(5, h) + Area(w, h, 6);
    assert Area(w, h, 2) == PassW(2, w) * PassH(2, h) + PassW(3, w) * PassH(3, h) + Area(w, h, 4);
    assert Area(w, h, 0) == PassW(0, w) * PassH(0, h) + PassW(1, w) * PassH(1, h) + Area(w, h, 2);
  }

  lemma PassLength(f: Format, img: seq<seq<Pixel>>, w: nat, h: nat, fts: seq<seq<nat>>, p: nat)
    requires FormatOk(f) && p < 7 && w >= 1 && h >= 1 && IsImage(f, img, w, h) && FilterChoice(fts, h)
    requires !EmptyPass(p, w, h)
    ensures |PassEncoded(f, img, w, h, fts, p)| <= SampleBytes(f) * f.n * (PassW(p, w) * PassH(p, h)) + h
  {
    hide PassW, PassH, PassImage, Filtered, IsImage, RowBytes, SampleBytes;
    var x, y := PassW(p, w), PassH(p, h);
    FilteredLength(f, PassImage(f, img, w, h, p), x, y, fts[p]);
    RowBound(f, x);
    PassSmaller(p, w, h);
    Below(RowBytes(f, x), SampleBytes(f) * (f.n * x), y, y);
    PerRow(RowBytes(f, x), y);
    Exchange4(SampleBytes(f), f.n, x, y);
  }

  lemma PerRow(b: nat, y: nat)
    ensures (b + 1) * y == b * y + y
  {
  }

  lemma Exchange4(s: nat, n: nat, x: nat, y: nat)
    ensures s * (n * x) * y == s * n * (x * y)
  {
    assert s * (n * x) == (s * n) * x;
  }

  lemma Spread(n: nat, a: nat, b: nat)
    ensures n * a + n * b == n * (a + b)
  {
  }

  lemma {:induction false} InterlaceLength(f: Format, img: seq<seq<Pixel>>, w: nat, h: nat, fts: seq<seq<nat>>, p: nat)
    requires FormatOk(f) && p <= 7 && w >= 1 && h >= 1 && IsImage(f, img, w, h) && FilterChoice(fts, h)
    ensures |Interlace(f, img, w, h, fts, p)| <= SampleBytes(f) * f.n * Area(w, h, p) + h * (7 - p)
    decreases 7 - p
  {
    hide PassW, PassH, PassEncoded, IsImage, FilterChoice, EmptyPass, SampleBytes;
    if p < 7 {
      InterlaceLength(f, img, w, h, fts, p + 1);
      if !EmptyPass(p, w, h) {
        PassLength(f, img, w, h, fts, p);
      }
      Spread(SampleBytes(f) * f.n, PassW(p, w) * PassH(p, h), Area(w, h, p + 1));
      Spread(h, 1, 6 - p);
    }
  }

  /** The guess covers the rows of the image. */
  lemma GuessCovers(f: Format, w: nat, h: nat)
    requires SizeOk(f, w, h)
    ensures (RowBytes(f, w) + 1) * h <= RawLength(f, w, h)
    ensures f.depth == 16 ==> RawLength(f, w, h) == 2 * (w * f.n * h) + h
  {
    var b := (w * f.depth + 7) / 8;
    WholeRow(f.n, w, f.depth);
    Covered(RowBytes(f, w), b, f.n, h);
    if f.depth == 16 {
      SampleBits(w, 16);
      Doubled(w, f.n, h);
    }
  }

  lemma Covered(row: nat, b: nat, n: nat, h: nat)
    requires row <= b * n
    ensures (row + 1) * h <= b * h * n + h
  {
    Below(row, b * n, h, h);
    PerRow(row, h);
    Products(b, n, h);
    assert b * n * h == b * h * n;
  }

  lemma Doubled(w: nat, n: nat, h: nat)
    ensures 2 * w * h * n == 2 * (w * n * h)
  {
    Products(n, w, h);
    assert 2 * w * h * n == 2 * (w * h * n);
  }

  lemma WholeRow(n: nat, w: nat, depth: nat)
    requires 1 <= n <= 4
    ensures (n * w * depth + 7) / 8 <= (w * depth + 7) / 8 * n
  {
    var k := w * depth;
    assert n * w * depth == n * k;
    if n == 1 {
    } else if n == 2 {
    } else if n == 3 {
    } else {
    }
  }

  /** What is interlaced never exceeds what the output buffer grows to. */
  lemma InterlaceFits(f: Format, img: seq<seq<Pixel>>, w: nat, h: nat, fts: seq<seq<nat>>)
    requires SizeOk(f, w, h) && IsImage(f, img, w, h) && FilterChoice(fts, h) && RawLength(f, w, h) <= INT_MAX
    ensures |Interlace(f, img, w, h, fts, 0)| <= Grown(RawLength(f, w, h)) <= UINT_MAX
  {
    hide Interlace, Area, IsImage, FilterChoice, RawLength, Grown, SampleBytes;
    InterlaceLength(f, img, w, h, fts, 0);
    WholeArea(w, h);
    Capacity(f, w, h);
  }

  lemma Capacity(f: Format, w: nat, h: nat)
    requires SizeOk(f, w, h) && RawLength(f, w, h) <= INT_MAX
    ensures SampleBytes(f) * f.n * (w * h) + h * 7 <= Grown(RawLength(f, w, h)) <= UINT_MAX
  {
    hide RawLength, Grown;
    GuessCovers(f, w, h);
    GrownTwice(RawLength(f, w, h));
    Products(f.n, w, h);
    TwoBytes(f.n, w * h);
  }

  lemma TwoBytes(n: nat, a: nat)
    ensures 2 * n * a == 2 * (n * a) && 1 * n * a == n * a
  {
  }

  lemma GrownTwice(size: nat)
    requires 1 <= size <= INT_MAX
    ensures Grown(size) >= 2 * size && Grown(size) > INT_MAX
  {
  }

  // ---- loading ----

  /**
   * Any image of any depth, its rows filtered in any way, interlaced, and written as any zlib stream of stored,
   * fixed and dynamic blocks: loading it gives its pixels as they are to be stored, exactly when its sizes fit.
   */
  method LoadInterlaced(f: Format, idat: seq<Byte>, w: nat, h: nat, header: bool,
                        ghost bs: seq<Block>, ghost img: seq<seq<Pixel>>, ghost fts: seq<seq<nat>>)
    returns (ok: bool, final: array<nat>)
    requires SizeOk(f, w, h) && IsImage(f, img, w, h) && FilterChoice(fts, h)
    requires AllGood(bs) && Carries(idat, bs, header) && Output(bs, []) == Some(Interlace(f, img, w, h, fts, 0))
    ensures ok <==> InterlacedFits(f, w, h)
    ensures ok ==> final.Length == h * w * OutN(f)
    ensures ok ==> forall y, x :: 0 <= y < h && 0 <= x < w ==>
                     PixelIn(final, w, x, y, OutN(f)) == OutPixel(f, img[y][x])
  {
    hide Interlace, AllGood, Output, Carries, FilterChoice, OutPixel, PixelIn, RawLength, OutputFits, Grown,
         OutBytes, PixelsOk;
    final := new nat[0];
    var guess := RawLength(f, w, h);
    if guess > INT_MAX {
      // as an int the guess is negative, and no buffer of that size can be had
      return false, final;
    }
    InterlaceFits(f, img, w, h, fts);
    RoomIs(f, w, h);
    if OutBytes(f, w, h) <= INT_MAX {
      PassesHaveRoom(f, w, h);
    }
    var expanded;
    ok, expanded := DecodeStream(bs, idat, guess, header);
    ok, final := ShowInterlaced(f, expanded, w, h, img, fts);
  }

  /** The same without interlacing. */
  method LoadPlain(f: Format, idat: seq<Byte>, w: nat, h: nat, header: bool,
                   ghost bs: seq<Block>, ghost img: seq<seq<Pixel>>, ghost fts: seq<nat>)
    returns (ok: bool, out: array<nat>)
    requires SizeOk(f, w, h) && IsImage(f, img, w, h) && Filters(fts, h)
    requires AllGood(bs) && Carries(idat, bs, header) && Output(bs, []) == Some(Filtered(f, img, w, h, fts))
    ensures ok <==> PlainFits(f, w, h)
    ensures ok ==> forall y, x :: 0 <= y < h && 0 <= x < w ==>
                     PixelIn(out, w, x, y, OutN(f)) == OutPixel(f, img[y][x])
  {
    hide AllGood, Output, Carries, OutPixel, PixelIn, RawLength, Grown, OutBytes, ImageRows, Filtered, Room, Flat,
         RowBytes, PixelsOk, StoredRows, Shaped, IsImage, Filters;
    out := new nat[0];
    var guess := RawLength(f, w, h);
    if guess > INT_MAX {
      // as an int the guess is negative, and no buffer of that size can be had
      return false, out;
    }
    GuessCovers(f, w, h);
    FilteredLength(f, img, w, h, fts);
    RoomIs(f, w, h);
    GrownTwice(guess);
    var expanded;
    ok, expanded := DecodeStream(bs, idat, guess, header);
    PlainRoundTrip(f, img, w, h, fts, []);
    assert Filtered(f, img, w, h, fts) + [] == Filtered(f, img, w, h, fts);
    ghost var rows;
    ok, out, rows := CreateImageRaw(f, expanded, w, h);
    if ok {
      PlainPixels(f, img, w, h, out, rows);
    }
  }

  lemma PlainPixels(f: Format, img: seq<seq<Pixel>>, w: nat, h: nat, out: array<nat>, rows: seq<seq<nat>>)
    requires FormatOk(f) && IsImage(f, img, w, h)
    requires rows == StoredRows(f, img) && Shaped(rows, w, h, OutN(f)) && out[..] == Flat(rows)
    ensures forall y, x :: 0 <= y < h && 0 <= x < w ==> PixelIn(out, w, x, y, OutN(f)) == OutPixel(f, img[y][x])
  {
    hide OutPixel, Flat, PixelsOk, PixelBlock, Flatten, PixelAt;
    forall y, x | 0 <= y < h && 0 <= x < w ensures PixelIn(out, w, x, y, OutN(f)) == OutPixel(f, img[y][x]) {
      FlatPixel(out, rows, w, h, OutN(f), x, y);
      StoredPixel(f, img[y], x);
    }
  }

  lemma StoredPixel(f: Format, ps: seq<Pixel>, x: nat)
    requires FormatOk(f) && PixelsOk(f, ps) && x < |ps|
    ensures x * OutN(f) + OutN(f) <= |Flatten(OutPixels(f, ps))|
    ensures PixelAt(Flatten(OutPixels(f, ps)), x, OutN(f)) == OutPixel(f, ps[x])
  {
    hide Flatten, OutPixel, PixelsOk;
    OutWide(f, ps);
    PixelOfFlatten(OutPixels(f, ps), OutN(f), x);
  }
}
