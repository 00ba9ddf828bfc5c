/** Interlacing and filtering an image, and that the decoder shows it again. */
module PngInterlace {
  import opened Basics
  import opened Bits
  import opened PngFilter
  import opened PngSamples
  import opened PngRows
  import opened Adam7
  import opened PngImage

  ghost predicate IsImage(f: Format, img: seq<seq<Pixel>>, w: nat, h: nat)
    requires FormatOk(f)
  {
    |img| == h && forall y :: 0 <= y < h ==> |img[y]| == w && PixelsOk(f, img[y])
  }

  /** One filter type for every row. */
  ghost predicate Filters(fts: seq<nat>, h: nat) {
    |fts| == h && forall j :: 0 <= j < h ==> fts[j] <= 4
  }

  // ---- without interlacing ----

  /** The bytes of the rows. */
  ghost function RowsOf(f: Format, img: seq<seq<Pixel>>, w: nat, h: nat): (rows: seq<seq<Byte>>)
    requires FormatOk(f) && IsImage(f, img, w, h)
    ensures |rows| == h && forall j :: 0 <= j < h ==> |rows[j]| == RowBytes(f, w)
  {
    hide RowBytes;
    seq(h, j requires 0 <= j < h => RowOf(f, img[j]))
  }

  /** An image filtered row by row. */
  ghost function Filtered(f: Format, img: seq<seq<Pixel>>, w: nat, h: nat, fts: seq<nat>): seq<Byte>
    requires FormatOk(f) && IsImage(f, img, w, h) && Filters(fts, h)
  {
    hide RowBytes, FilterBytes;
    FilterPositive(f);
    EncodeRows(RowsOf(f, img, w, h), fts, FilterBytes(f), Zeros(RowBytes(f, w)))
  }

  lemma FilterPositive(f: Format)
    requires FormatOk(f)
    ensures FilterBytes(f) >= 1
  {
  }

  lemma FilteredLength(f: Format, img: seq<seq<Pixel>>, w: nat, h: nat, fts: seq<nat>)
    requires FormatOk(f) && IsImage(f, img, w, h) && Filters(fts, h)
    ensures |Filtered(f, img, w, h, fts)| == (RowBytes(f, w) + 1) * h
  {
    hide RowBytes, FilterBytes, EncodeRows, RowsOf;
    FilterPositive(f);
    EncodedLength(RowsOf(f, img, w, h), fts, FilterBytes(f), Zeros(RowBytes(f, w)));
  }

  /** The stored samples of an image. */
  ghost function StoredRows(f: Format, img: seq<seq<Pixel>>): (r: seq<seq<nat>>)
    ensures |r| == |img|
  {
    seq(|img|, j requires 0 <= j < |img| => Flatten(OutPixels(f, img[j])))
  }

  /** Every filtered image that passes the size tests comes back row by row, whatever bytes follow it. */
  lemma PlainRoundTrip(f: Format, img: seq<seq<Pixel>>, w: nat, h: nat, fts: seq<nat>, extra: seq<Byte>)
    requires FormatOk(f) && IsImage(f, img, w, h) && Filters(fts, h)
    ensures ImageRows(f, Filtered(f, img, w, h, fts) + extra, w, h)
            == if Room(f, w, h) then Some(StoredRows(f, img)) else None
  {
    hide RowBytes, FilterBytes, EncodeRows, DecodeRows, OutRow, RowOf, Flatten, OutPixels, Room, PixelsOk;
    FilterPositive(f);
    var rows := RowsOf(f, img, w, h);
    DecodeOfEncode(rows, fts, FilterBytes(f), Zeros(RowBytes(f, w)), extra);
    forall j | 0 <= j < h ensures OutRow(f, rows[j], w) == StoredRows(f, img)[j] {
      OutRowOfPixels(f, img[j]);
    }
    assert OutRows(f, rows, w) == StoredRows(f, img);
  }

  // ---- interlaced ----

  ghost function PassSource(f: Format, img: seq<seq<Pixel>>, w: nat, h: nat, p: nat, j: nat, i: nat): (px: Pixel)
    requires FormatOk(f) && p < 7 && w >= 1 && h >= 1 && IsImage(f, img, w, h) && j < PassH(p, h) && i < PassW(p, w)
    ensures |px| == f.n && AllBelow(px, Range(f))
  {
    hide OutX, OutY, PassW, PassH, Range;
    RowInside(p, h, j);
    ColumnInside(p, w, i);
    img[OutY(p, j)][OutX(p, i)]
  }

  /** The pixels of one row of a pass. */
  ghost function PassRow(f: Format, img: seq<seq<Pixel>>, w: nat, h: nat, p: nat, j: nat): (r: seq<Pixel>)
    requires FormatOk(f) && p < 7 && w >= 1 && h >= 1 && IsImage(f, img, w, h) && j < PassH(p, h)
    ensures |r| == PassW(p, w) && PixelsOk(f, r)
  {
    hide PassSource, PassW, PassH, Range, IsImage;
    seq(PassW(p, w), i requires 0 <= i < PassW(p, w) => PassSource(f, img, w, h, p, j, i))
  }

  /** A pass as an image of its own. */
  ghost function PassImage(f: Format, img: seq<seq<Pixel>>, w: nat, h: nat, p: nat): (r: seq<seq<Pixel>>)
    requires FormatOk(f) && p < 7 && w >= 1 && h >= 1 && IsImage(f, img, w, h)
    ensures IsImage(f, r, PassW(p, w), PassH(p, h))
  {
    hide PassRow, PassW, PassH, PixelsOk;
    seq(PassH(p, h), j requires 0 <= j < PassH(p, h) => PassRow(f, img, w, h, p, j))
  }

  /** One filter type for every row of every pass. */
  ghost predicate FilterChoice(fts: seq<seq<nat>>, h: nat)
    requires h >= 1
  {
    |fts| == 7 && forall p :: 0 <= p < 7 ==> Filters(fts[p], PassH(p, h))
  }

  /** One pass, filtered. */
  ghost function PassEncoded(f: Format, img: seq<seq<Pixel>>, w: nat, h: nat, fts: seq<seq<nat>>, p: nat): seq<Byte>
    requires FormatOk(f) && p < 7 && w >= 1 && h >= 1 && IsImage(f, img, w, h) && FilterChoice(fts, h)
  {
    Filtered(f, PassImage(f, img, w, h, p), PassW(p, w), PassH(p, h), fts[p])
  }

  /** The interlaced, filtered form of an image, from pass p on. */
  ghost function Interlace(f: Format, img: seq<seq<Pixel>>, w: nat, h: nat, fts: seq<seq<nat>>, p: nat): seq<Byte>
    requires FormatOk(f) && p <= 7 && w >= 1 && h >= 1 && IsImage(f, img, w, h) && FilterChoice(fts, h)
    decreases 7 - p
  {
    if p == 7 then []
    else
      (if EmptyPass(p, w, h) then [] else PassEncoded(f, img, w, h, fts, p))
      + Interlace(f, img, w, h, fts, p + 1)
  }

  /** All passes that have pixels pass the size tests. */
  ghost predicate PassesRoom(f: Format, w: nat, h: nat)
    requires w >= 1 && h >= 1
  {
    forall p :: 0 <= p < 7 && !EmptyPass(p, w, h) ==> Room(f, PassW(p, w), PassH(p, h))
  }

  /** What decoding the interlaced form must give for passes p..6. */
  ghost predicate PassesAre(ps: seq<seq<seq<nat>>>, f: Format, img: seq<seq<Pixel>>, w: nat, h: nat, p: nat)
    requires FormatOk(f) && p <= 7 && w >= 1 && h >= 1 && IsImage(f, img, w, h)
  {
    && |ps| == 7 - p
    && forall q :: p <= q < 7 && !EmptyPass(q, w, h) ==> ps[q - p] == StoredRows(f, PassImage(f, img, w, h, q))
  }

  lemma {:induction false} PassesOfInterlace(f: Format, img: seq<seq<Pixel>>, w: nat, h: nat, fts: seq<seq<nat>>,
                                             p: nat)
    requires FormatOk(f) && p <= 7 && w >= 1 && h >= 1 && IsImage(f, img, w, h) && FilterChoice(fts, h)
    requires PassesRoom(f, w, h)
    ensures var r := Passes(f, Interlace(f, img, w, h, fts, p), w, h, p);
            r.Some? && PassesAre(r.value, f, img, w, h, p)
    decreases 7 - p
  {
    hide PassW, PassH, PassImage, StoredRows, Passes, PassesAre, IsImage, FilterChoice, PassEncoded, PassesRoom,
         EmptyPass;
    var data := Interlace(f, img, w, h, fts, p);
    if p < 7 {
      PassesOfInterlace(f, img, w, h, fts, p + 1);
      var tail := Interlace(f, img, w, h, fts, p + 1);
      var rest := Passes(f, tail, w, h, p + 1);
      if EmptyPass(p, w, h) {
        assert data == tail;
        PassesEmpty(f, data, w, h, p);
        MorePasses([], rest.value, f, img, w, h, p);
      } else {
        PassBack(f, img, w, h, fts, p, tail);
        MorePasses(StoredRows(f, PassImage(f, img, w, h, p)), rest.value, f, img, w, h, p);
      }
    } else {
      PassesDone(f, data, img, w, h);
    }
  }

  lemma PassesDone(f: Format, data: seq<Byte>, img: seq<seq<Pixel>>, w: nat, h: nat)
    requires FormatOk(f) && w >= 1 && h >= 1 && IsImage(f, img, w, h)
    ensures Passes(f, data, w, h, 7) == Some([]) && PassesAre([], f, img, w, h, 7)
  {
  }

  lemma PassesEmpty(f: Format, data: seq<Byte>, w: nat, h: nat, p: nat)
    requires FormatOk(f) && p < 7 && w >= 1 && h >= 1 && EmptyPass(p, w, h)
    ensures Passes(f, data, w, h, p) == Prepend([], Passes(f, data, w, h, p + 1))
  {
  }

  lemma MorePasses(rows: seq<seq<nat>>, ps: seq<seq<seq<nat>>>, f: Format, img: seq<seq<Pixel>>, w: nat, h: nat, p: nat)
    requires FormatOk(f) && p < 7 && w >= 1 && h >= 1 && IsImage(f, img, w, h)
    requires PassesAre(ps, f, img, w, h, p + 1)
    requires !EmptyPass(p, w, h) ==> rows == StoredRows(f, PassImage(f, img, w, h, p))
    ensures PassesAre([rows] + ps, f, img, w, h, p)
  {
    hide PassImage, StoredRows, EmptyPass, IsImage;
  }

  /** One pass of the interlaced form decodes to its stored rows and leaves the rest of the data. */
  lemma PassBack(f: Format, img: seq<seq<Pixel>>, w: nat, h: nat, fts: seq<seq<nat>>, p: nat, tail: seq<Byte>)
    requires FormatOk(f) && p < 7 && w >= 1 && h >= 1 && IsImage(f, img, w, h) && FilterChoice(fts, h)
    requires !EmptyPass(p, w, h) && PassesRoom(f, w, h)
    ensures Passes(f, PassEncoded(f, img, w, h, fts, p) + tail, w, h, p)
            == Prepend(StoredRows(f, PassImage(f, img, w, h, p)), Passes(f, tail, w, h, p + 1))
  {
    hide PassW, PassH, PassImage, StoredRows, ImageRows, IsImage, Prepend, Filtered, RowBytes, Room;
    var pass, x, y := PassImage(f, img, w, h, p), PassW(p, w), PassH(p, h);
    var bytes := PassEncoded(f, img, w, h, fts, p);
    PlainRoundTrip(f, pass, x, y, fts[p], tail);
    FilteredLength(f, pass, x, y, fts[p]);
    assert (bytes + tail)[|bytes|..] == tail;
  }

  /** Decoding an interlaced image gives every pixel back as it is to be stored. */
  lemma InterlaceRoundTrip(f: Format, img: seq<seq<Pixel>>, w: nat, h: nat, fts: seq<seq<nat>>, x: nat, y: nat)
    requires FormatOk(f) && w >= 1 && h >= 1 && IsImage(f, img, w, h) && FilterChoice(fts, h) && PassesRoom(f, w, h)
    requires x < w && y < h
    ensures var r, p := Passes(f, Interlace(f, img, w, h, fts, 0), w, h, 0), PassOf(x, y);
            r.Some? && PassPixel(r.value[p], p, x, y, OutN(f)) == OutPixel(f, img[y][x])
  {
    hide PassW, PassH, PassOf, InX, InY, OutX, OutY, Passes, Interlace, PassImage, StoredRows, PassPixel, OutPixel,
         PassesRoom, FilterChoice, PixelsOk;
    PassesOfInterlace(f, img, w, h, fts, 0);
    PixelInPass(x, y, w, h);
    PassPixelBack(f, img, w, h, x, y);
  }

  lemma PassPixelBack(f: Format, img: seq<seq<Pixel>>, w: nat, h: nat, x: nat, y: nat)
    requires FormatOk(f) && w >= 1 && h >= 1 && IsImage(f, img, w, h) && x < w && y < h
    ensures var p := PassOf(x, y);
            PassPixel(StoredRows(f, PassImage(f, img, w, h, p)), p, x, y, OutN(f)) == OutPixel(f, img[y][x])
  {
    hide PassW, PassH, PassOf, InX, InY, OutX, OutY, Flatten, OutPixel, PixelsOk;
    var p := PassOf(x, y);
    var i, j := InX(p, x), InY(p, y);
    PixelInPass(x, y, w, h);
    LandsOn(p, i, j, x, y);
    var ps := PassRow(f, img, w, h, p, j);
    OutWide(f, ps);
    PixelOfFlatten(OutPixels(f, ps), OutN(f), i);
  }

  lemma OutWide(f: Format, ps: seq<Pixel>)
    requires FormatOk(f) && PixelsOk(f, ps)
    ensures AllWide(OutPixels(f, ps), OutN(f))
  {
  }

  /** The decoder shows the image that was interlaced, whatever filters its rows were given, if the sizes allow. */
  method ShowInterlaced(f: Format, data: seq<Byte>, w: nat, h: nat,
                        ghost img: seq<seq<Pixel>>, ghost fts: seq<seq<nat>>)
    returns (ok: bool, final: array<nat>)
    requires FormatOk(f) && w >= 1 && h >= 1 && IsImage(f, img, w, h) && FilterChoice(fts, h)
    requires data == Interlace(f, img, w, h, fts, 0)
    requires OutputFits(f, w, h) ==> PassesRoom(f, w, h)
    ensures fresh(final) && (ok <==> OutputFits(f, w, h))
    ensures ok ==> final.Length == h * w * OutN(f)
    ensures ok ==> forall y, x :: 0 <= y < h && 0 <= x < w ==>
                     PixelIn(final, w, x, y, OutN(f)) == OutPixel(f, img[y][x])
  {
    hide Passes, Interlace, PassPixel, OutPixel, FilterChoice, PassOf, PixelIn, OutputFits, PassesRoom, PixelsOk;
    ok, final := CreateInterlaced(f, data, w, h);
    if OutputFits(f, w, h) {
      InterlaceRoundTrip(f, img, w, h, fts, 0, 0);
      forall y, x | 0 <= y < h && 0 <= x < w ensures PixelIn(final, w, x, y, OutN(f)) == OutPixel(f, img[y][x]) {
        InterlaceRoundTrip(f, img, w, h, fts, x, y);
      }
    }
  }
}
