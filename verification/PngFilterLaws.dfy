/** What the five filter types are (section 9 of the PNG specification), apart from how they are computed. */
module PngFilterLaws {
  import opened Bits
  import opened PngFilter

  /** The average is rounded down, with no carry lost. */
  lemma AverageIs(a: Byte, b: Byte, c: Byte)
    ensures 2 * Predictor(3, a, b, c) <= a as int + b as int <= 2 * Predictor(3, a, b, c) + 1
  {
  }

  /** The Paeth predictor is the nearest to left plus above minus above left; ties go to left, then to above. */
  lemma PaethIsNearest(a: int, b: int, c: int)
    ensures var r, p := PaethSpec(a, b, c), a + b - c;
            && (r == a || r == b || r == c)
            && (forall s :: s == a || s == b || s == c ==> Distance(p, r) <= Distance(p, s))
            && (Distance(p, a) == Distance(p, r) ==> r == a)
            && (Distance(p, a) != Distance(p, r) && Distance(p, b) == Distance(p, r) ==> r == b)
  {
  }

  function Distance(p: int, q: int): int {
    if p >= q then p - q else q - p
  }

  /** What each filter type makes of a byte, from the finished row and the row above. */
  lemma {:induction false} ReconByte(ft: nat, bpp: nat, raw: seq<Byte>, prior: seq<Byte>, n: nat, k: nat)
    requires ft <= 4 && bpp >= 1 && k < n <= |raw| && n <= |prior|
    ensures var row := ReconRow(ft, bpp, raw, prior, n);
            row[k] == Wrap(raw[k] as int + Predictor(ft, LeftOf(row, k, bpp), prior[k], LeftOf(prior, k, bpp)))
    decreases n
  {
    hide Predictor, Wrap;
    if k < n - 1 {
      ReconByte(ft, bpp, raw, prior, n - 1, k);
    }
  }

  /** The byte of the pixel on the left, or zero. */
  function LeftOf(row: seq<Byte>, k: nat, bpp: nat): Byte
    requires bpp >= 1 && k < |row|
  {
    if k >= bpp then row[k - bpp] else 0
  }

  /** The five types, byte by byte and modulo 256. */
  lemma ReconIs(ft: nat, bpp: nat, raw: seq<Byte>, prior: seq<Byte>, n: nat, k: nat)
    requires ft <= 4 && bpp >= 1 && k < n <= |raw| && n <= |prior|
    ensures var row := ReconRow(ft, bpp, raw, prior, n);
            var x: int, a: int, b: int, c: int := raw[k], LeftOf(row, k, bpp), prior[k], LeftOf(prior, k, bpp);
            && (ft == 0 ==> row[k] == x)
            && (ft == 1 ==> row[k] == (x + a) % 256)
            && (ft == 2 ==> row[k] == (x + b) % 256)
            && (ft == 3 ==> exists m: nat :: 2 * m <= a + b <= 2 * m + 1 && row[k] == (x + m) % 256)
            && (ft == 4 ==> row[k] == (x + PaethSpec(a, b, c)) % 256)
  {
    hide ReconRow, PaethSpec;
    ReconByte(ft, bpp, raw, prior, n, k);
    if ft == 3 {
      var row := ReconRow(ft, bpp, raw, prior, n);
      var m: nat := Average(LeftOf(row, k, bpp), prior[k]);
      AverageIs(LeftOf(row, k, bpp), prior[k], 0);
      assert 2 * m <= LeftOf(row, k, bpp) as int + prior[k] as int <= 2 * m + 1;
    }
  }
}
