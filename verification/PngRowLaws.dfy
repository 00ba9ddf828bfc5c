/** What the sizes and scales of PNG rows are, apart from how they are computed. */
module PngRowLaws {
  import opened Powers
  import opened PngSamples
  import opened PngRows

  /** A row takes the fewest bytes that hold its bits. */
  lemma RowBytesAre(f: Format, x: nat)
    ensures 8 * RowBytes(f, x) - 8 < f.n * x * f.depth <= 8 * RowBytes(f, x)
  {
  }

  /** Filters look back by the whole bytes of a pixel, but at least by one. */
  lemma FilterBytesAre(f: Format)
    requires FormatOk(f)
    ensures f.depth >= 8 ==> 8 * FilterBytes(f) == f.n * f.depth
    ensures f.depth < 8 ==> FilterBytes(f) == 1
  {
    if f.depth == 8 {
    } else if f.depth == 16 {
    }
  }

  /** Samples have two to the depth values, and fill a byte. */
  lemma SamplesAre(depth: nat)
    requires depth in {1, 2, 4, 8}
    ensures Base(depth) == Pow2(depth) && PerByte(depth) * depth == 8
  {
    assert Pow2(4) == 16;
    assert Pow2(8) == 256;
  }

  /** The largest gray sample of a low depth is stored as 255, the smallest as 0, with equal steps; others stay. */
  lemma ScaleIs(f: Format)
    requires FormatOk(f)
    ensures f.gray && f.depth < 8 ==> Scale(f) * (Base(f.depth) - 1) == 255
    ensures !f.gray || f.depth >= 8 ==> Scale(f) == 1
  {
  }

  /** Full alpha is the largest value a stored sample can have. */
  lemma TopIs(f: Format)
    requires FormatOk(f)
    ensures Top(f) == Pow2(8 * SampleBytes(f)) - 1
  {
    Pow2Add(8, 8);
    assert Pow2(8) == 256;
  }

  /** Alpha adds a channel; only 16-bit samples take two bytes. */
  lemma ChannelsAre(f: Format)
    ensures OutN(f) == f.n + (if f.alpha then 1 else 0)
    ensures FormatOk(f) ==> 8 * SampleBytes(f) == if f.depth > 8 then f.depth else 8
  {
  }
}
