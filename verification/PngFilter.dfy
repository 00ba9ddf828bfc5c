/** PNG scanline filters (sections 9.2 to 9.4 of the PNG specification) and their reconstruction. */
module PngFilter {
  import opened Basics
  import opened Bits

  // ---- the predictors ----

  function Abs(x: int): nat {
    if x < 0 then -x else x
  }

  /** The Paeth predictor as the PNG specification writes it. */
  function PaethSpec(a: int, b: int, c: int): int {
    var p := a + b - c;
    var pa, pb, pc := Abs(p - a), Abs(p - b), Abs(p - c);
    if pa <= pb && pa <= pc then a else if pb <= pc then b else c
  }

  /** stbi__paeth */
  function Paeth(a: int, b: int, c: int): int {
    var thresh := c * 3 - (a + b);
    var lo := if a < b then a else b;
    var hi := if a < b then b else a;
    var t0 := if hi <= thresh then lo else c;
    var t1 := if thresh <= lo then hi else t0;
    t1
  }

  /** The branch-free formulation agrees with the specification on all integers. */
  lemma PaethIsSpec(a: int, b: int, c: int)
    ensures Paeth(a, b, c) == PaethSpec(a, b, c)
  {
  }

  /** What filter type ft subtracts, from the bytes to the left, above, and above left. */
  function Predictor(ft: nat, a: Byte, b: Byte, c: Byte): int
    requires ft <= 4
  {
    if ft == 0 then 0
    else if ft == 1 then a
    else if ft == 2 then b
    else if ft == 3 then Average(a, b)
    else PaethSpec(a, b, c)
  }

  function Average(a: nat, b: nat): nat {
    (a + b) / 2
  }

  /** A byte of a row, or zero left of it. */
  function Left(row: seq<Byte>, k: nat, bpp: nat): Byte
    requires k <= |row|
  {
    if k < bpp || k - bpp >= |row| then 0 else row[k - bpp]
  }

  function Wrap(x: int): Byte {
    x % 256
  }

  /** Filtering one row against the row above. */
  function FilterRow(ft: nat, bpp: nat, row: seq<Byte>, prior: seq<Byte>): (f: seq<Byte>)
    requires ft <= 4 && bpp >= 1 && |prior| == |row|
    ensures |f| == |row|
  {
    seq(|row|, k requires 0 <= k < |row| =>
      Wrap(row[k] as int - Predictor(ft, Left(row, k, bpp), prior[k], Left(prior, k, bpp))))
  }

  /** Reconstructing the first n bytes of a row. */
  function ReconRow(ft: nat, bpp: nat, raw: seq<Byte>, prior: seq<Byte>, n: nat): (row: seq<Byte>)
    requires ft <= 4 && bpp >= 1 && n <= |raw| && n <= |prior|
    ensures |row| == n
  {
    if n == 0 then []
    else
      var done := ReconRow(ft, bpp, raw, prior, n - 1);
      done + [Wrap(raw[n - 1] as int + Predictor(ft, Left(done, n - 1, bpp), prior[n - 1], Left(prior, n - 1, bpp)))]
  }

  lemma WrapCancels(x: Byte, p: int)
    ensures Wrap(Wrap(x as int - p) as int + p) == x
  {
  }

  /** Reconstruction inverts filtering, whatever the filter type. */
  lemma {:induction false} ReconOfFilter(ft: nat, bpp: nat, row: seq<Byte>, prior: seq<Byte>, n: nat)
    requires ft <= 4 && bpp >= 1 && |prior| == |row| && n <= |row|
    ensures ReconRow(ft, bpp, FilterRow(ft, bpp, row, prior), prior, n) == row[..n]
  {
    hide Predictor, Wrap;
    if n > 0 {
      ReconOfFilter(ft, bpp, row, prior, n - 1);
      var k := n - 1;
      assert Left(row[..k], k, bpp) == Left(row, k, bpp);
      WrapCancels(row[k], Predictor(ft, Left(row, k, bpp), prior[k], Left(prior, k, bpp)));
      assert row[..n] == row[..k] + [row[k]];
    }
  }

  // ---- the filters the reconstruction loops switch on ----

  datatype Kind = NoFilter | Sub | Up | Avg | PaethKind | AvgFirst

  /** first_row_filter, and the plain numbering for the other rows. */
  function KindOf(ft: nat, first: bool): Kind
    requires ft <= 4
  {
    if ft == 0 then NoFilter
    else if ft == 1 then Sub
    else if ft == 2 then (if first then NoFilter else Up)
    else if ft == 3 then (if first then AvgFirst else Avg)
    else (if first then Sub else PaethKind)
  }

  /** The byte added in the first filter_bytes positions of a row. */
  function HeadPredictor(kind: Kind, b: Byte): int {
    match kind
    case NoFilter => 0
    case Sub => 0
    case Up => b
    case Avg => b / 2
    case PaethKind => b
    case AvgFirst => 0
  }

  /** The byte added in the rest of the row. */
  function TailPredictor(kind: Kind, a: Byte, b: Byte, c: Byte): int {
    match kind
    case NoFilter => 0
    case Sub => a
    case Up => b
    case Avg => Average(a, b)
    case PaethKind => Paeth(a, b, c)
    case AvgFirst => a / 2
  }

  /** In the head of a row the loops add what the filter type says with nothing to the left. */
  lemma HeadIsPredictor(ft: nat, first: bool, b: Byte)
    requires ft <= 4 && (first ==> b == 0)
    ensures HeadPredictor(KindOf(ft, first), b) == Predictor(ft, 0, b, 0)
  {
  }

  /** In the tail likewise; in the first row the bytes above count as zero and are not read. */
  lemma TailIsPredictor(ft: nat, first: bool, a: Byte, b: Byte, c: Byte, b': Byte, c': Byte)
    requires ft <= 4 && (if first then b == 0 && c == 0 else b' == b && c' == c)
    ensures TailPredictor(KindOf(ft, first), a, b', c') == Predictor(ft, a, b, c)
  {
    PaethIsSpec(a, b, c);
  }

  // ---- two alternating row buffers ----

  /** The current and the prior row buffer, and the row the prior buffer stands for. */
  ghost predicate ScanlineSetup(cur: array<Byte>, prior: array<Byte>, bpp: nat, kind: Kind, raw: seq<Byte>,
                                ft: nat, first: bool, up: seq<Byte>)
    reads prior
  {
    && cur != prior && cur.Length == prior.Length == |raw| == |up| && 1 <= bpp <= |raw|
    && ft <= 4 && kind == KindOf(ft, first)
    && (if first then forall k :: 0 <= k < |up| ==> up[k] == 0
        else forall k :: 0 <= k < |up| ==> up[k] == prior[k])
  }

  /** One scanline: raw bytes into the current row buffer, the other one being the row above. */
  method ReconScanline(cur: array<Byte>, prior: array<Byte>, bpp: nat, kind: Kind, raw: seq<Byte>,
                       ghost ft: nat, ghost first: bool, ghost up: seq<Byte>)
    requires ScanlineSetup(cur, prior, bpp, kind, raw, ft, first, up)
    modifies cur
    ensures cur[..] == ReconRow(ft, bpp, raw, up, |raw|)
  {
    hide Predictor, HeadPredictor, TailPredictor, KindOf, Wrap, ReconRow;
    var k := 0;
    ReconNone(ft, bpp, raw, up);
    while k < bpp
      invariant 0 <= k <= bpp
      invariant cur[..k] == ReconRow(ft, bpp, raw, up, k)
      modifies cur
    {
      ReconHead(ft, first, bpp, raw, up, k, prior[k]);
      cur[k] := Wrap(raw[k] as int + HeadPredictor(kind, prior[k]));
      k := k + 1;
    }
    while k < |raw|
      invariant bpp <= k <= |raw|
      invariant cur[..k] == ReconRow(ft, bpp, raw, up, k)
      modifies cur
    {
      assert cur[..k][k - bpp] == cur[k - bpp];
      ReconTail(ft, first, bpp, raw, up, k, prior[k], prior[k - bpp]);
      cur[k] := Wrap(raw[k] as int + TailPredictor(kind, cur[k - bpp], prior[k], prior[k - bpp]));
      k := k + 1;
    }
    assert cur[..] == cur[..k];
  }

  lemma ReconNone(ft: nat, bpp: nat, raw: seq<Byte>, up: seq<Byte>)
    requires ft <= 4 && bpp >= 1
    ensures ReconRow(ft, bpp, raw, up, 0) == []
  {
  }

  lemma ReconHead(ft: nat, first: bool, bpp: nat, raw: seq<Byte>, up: seq<Byte>, k: nat, b: Byte)
    requires ft <= 4 && k < bpp && k < |raw| && k < |up|
    requires if first then up[k] == 0 else up[k] == b
    ensures ReconRow(ft, bpp, raw, up, k + 1) ==
            ReconRow(ft, bpp, raw, up, k) + [Wrap(raw[k] as int + HeadPredictor(KindOf(ft, first), b))]
  {
    hide Predictor, HeadPredictor, KindOf, Wrap;
    HeadIsPredictor(ft, first, up[k]);
    FirstHead(ft, b, up[k]);
  }

  /** The first row's head reads nothing from above. */
  lemma FirstHead(ft: nat, b: Byte, b': Byte)
    requires ft <= 4
    ensures HeadPredictor(KindOf(ft, true), b) == HeadPredictor(KindOf(ft, true), b')
  {
  }

  lemma ReconTail(ft: nat, first: bool, bpp: nat, raw: seq<Byte>, up: seq<Byte>, k: nat, b: Byte, c: Byte)
    requires ft <= 4 && 1 <= bpp <= k && k < |raw| && k < |up|
    requires if first then up[k] == 0 && up[k - bpp] == 0 else up[k] == b && up[k - bpp] == c
    ensures var done := ReconRow(ft, bpp, raw, up, k);
            ReconRow(ft, bpp, raw, up, k + 1) ==
            done + [Wrap(raw[k] as int + TailPredictor(KindOf(ft, first), done[k - bpp], b, c))]
  {
    hide Predictor, TailPredictor, KindOf, Wrap;
    var done := ReconRow(ft, bpp, raw, up, k);
    TailIsPredictor(ft, first, done[k - bpp], up[k], up[k - bpp], b, c);
  }

  // ---- whole images ----

  function Zeros(n: nat): (z: seq<Byte>)
    ensures |z| == n && forall k :: 0 <= k < n ==> z[k] == 0
  {
    seq(n, _ => 0)
  }

  /** y rows of nk bytes, each after its filter byte, reconstructed one after the other. */
  function DecodeRows(raw: seq<Byte>, bpp: nat, nk: nat, y: nat, prior: seq<Byte>): (r: Option<seq<seq<Byte>>>)
    requires bpp >= 1 && |prior| == nk
    ensures r.Some? ==> |r.value| == y && forall j :: 0 <= j < y ==> |r.value[j]| == nk
    decreases y
  {
    if y == 0 then Some([])
    else if |raw| < nk + 1 || raw[0] > 4 then None
    else
      var row := ReconRow(raw[0], bpp, raw[1..nk + 1], prior, nk);
      match DecodeRows(raw[nk + 1..], bpp, nk, y - 1, row)
      case None => None
      case Some(rest) => Some([row] + rest)
  }

  /** The filtered form of an image: per row its filter type, then the filtered bytes. */
  function EncodeRows(rows: seq<seq<Byte>>, fts: seq<nat>, bpp: nat, prior: seq<Byte>): seq<Byte>
    requires bpp >= 1 && |fts| == |rows|
    requires forall j :: 0 <= j < |rows| ==> fts[j] <= 4 && |rows[j]| == |prior|
  {
    if rows == [] then []
    else [fts[0]] + FilterRow(fts[0], bpp, rows[0], prior) + EncodeRows(rows[1..], fts[1..], bpp, rows[0])
  }

  /** Decoding inverts filtering for every image and every choice of filters, whatever bytes follow. */
  lemma {:induction false} DecodeOfEncode(rows: seq<seq<Byte>>, fts: seq<nat>, bpp: nat, prior: seq<Byte>,
                                          extra: seq<Byte>)
    requires bpp >= 1 && |fts| == |rows|
    requires forall j :: 0 <= j < |rows| ==> fts[j] <= 4 && |rows[j]| == |prior|
    ensures DecodeRows(EncodeRows(rows, fts, bpp, prior) + extra, bpp, |prior|, |rows|, prior) == Some(rows)
    decreases |rows|
  {
    hide FilterRow, ReconRow;
    if rows != [] {
      var f, nk := FilterRow(fts[0], bpp, rows[0], prior), |prior|;
      var tail := EncodeRows(rows[1..], fts[1..], bpp, rows[0]);
      var raw := EncodeRows(rows, fts, bpp, prior) + extra;
      assert raw == [fts[0]] + f + (tail + extra);
      assert raw[1..nk + 1] == f && raw[nk + 1..] == tail + extra;
      ReconOfFilter(fts[0], bpp, rows[0], prior, nk);
      assert rows[0][..nk] == rows[0];
      DecodeOfEncode(rows[1..], fts[1..], bpp, rows[0], extra);
      assert [rows[0]] + rows[1..] == rows;
    }
  }

  /** The row loop of stbi__create_png_image_raw. */
  method ReconImage(raw: seq<Byte>, bpp: nat, nk: nat, y: nat) returns (ok: bool, rows: seq<seq<Byte>>)
    requires 1 <= bpp <= nk
    ensures ok <==> DecodeRows(raw, bpp, nk, y, Zeros(nk)).Some?
    ensures ok ==> DecodeRows(raw, bpp, nk, y, Zeros(nk)) == Some(rows)
  {
    hide DecodeRows, ReconRow, KindOf, Joined;
    rows := [];
    if |raw| < (nk + 1) * y {
      ShortRaw(raw, bpp, nk, y, Zeros(nk));
      return false, rows;
    }
    var even, odd := new Byte[nk], new Byte[nk];
    var pos, j := 0, 0;
    ghost var up := Zeros(nk);
    JoinedNone(raw, DecodeRows(raw, bpp, nk, y, up));
    while j < y
      invariant 0 <= j <= y && pos <= |raw| && |up| == nk
      invariant (nk + 1) * (y - j) <= |raw| - pos
      invariant j == 0 ==> up == Zeros(nk)
      invariant j > 0 ==> up == if j % 2 == 1 then even[..] else odd[..]
      invariant Joined(rows, DecodeRows(raw[pos..], bpp, nk, y - j, up)) == DecodeRows(raw, bpp, nk, y, Zeros(nk))
    {
      RowStep(raw[pos..], bpp, nk, y - j, up, rows);
      OneRowLess(nk + 1, y - j);
      var cur, prior := if j % 2 == 1 then odd else even, if j % 2 == 1 then even else odd;
      var filter := raw[pos];
      if filter > 4 {
        return false, rows;
      }
      NextSlices(raw, pos, nk);
      ReconScanline(cur, prior, bpp, KindOf(filter, j == 0), raw[pos + 1..pos + 1 + nk], filter, j == 0, up);
      var dest := cur[..];
      rows, up := rows + [dest], dest;
      pos, j := pos + 1 + nk, j + 1;
    }
    RowsEnd(raw[pos..], bpp, nk, up, rows);
    ok := true;
  }

  function Joined(rows: seq<seq<Byte>>, rest: Option<seq<seq<Byte>>>): Option<seq<seq<Byte>>> {
    match rest
    case None => None
    case Some(more) => Some(rows + more)
  }

  lemma JoinedNone(raw: seq<Byte>, r: Option<seq<seq<Byte>>>)
    ensures Joined([], r) == r && raw[0..] == raw
  {
    assert r.Some? ==> [] + r.value == r.value;
  }

  lemma OneRowLess(w: nat, n: nat)
    requires n >= 1
    ensures w * n == w * (n - 1) + w && w * (n - 1) >= 0
  {
  }

  /** Too little data for y rows means no image. */
  lemma {:induction false} ShortRaw(raw: seq<Byte>, bpp: nat, nk: nat, y: nat, prior: seq<Byte>)
    requires bpp >= 1 && |prior| == nk && |raw| < (nk + 1) * y
    ensures DecodeRows(raw, bpp, nk, y, prior).None?
    decreases y
  {
    hide ReconRow;
    if y > 0 && |raw| >= nk + 1 && raw[0] <= 4 {
      OneRowLess(nk + 1, y);
      ShortRaw(raw[nk + 1..], bpp, nk, y - 1, ReconRow(raw[0], bpp, raw[1..nk + 1], prior, nk));
    }
  }

  /** Every encoded row takes its bytes and a filter byte. */
  lemma {:induction false} EncodedLength(rows: seq<seq<Byte>>, fts: seq<nat>, bpp: nat, prior: seq<Byte>)
    requires bpp >= 1 && |fts| == |rows|
    requires forall j :: 0 <= j < |rows| ==> fts[j] <= 4 && |rows[j]| == |prior|
    ensures |EncodeRows(rows, fts, bpp, prior)| == (|prior| + 1) * |rows|
    decreases |rows|
  {
    hide FilterRow;
    if rows != [] {
      OneRowLess(|prior| + 1, |rows|);
      EncodedLength(rows[1..], fts[1..], bpp, rows[0]);
    }
  }

  lemma NextSlices(raw: seq<Byte>, pos: nat, nk: nat)
    requires pos + nk + 1 <= |raw|
    ensures raw[pos..][0] == raw[pos] && raw[pos..][1..nk + 1] == raw[pos + 1..pos + 1 + nk]
    ensures raw[pos..][nk + 1..] == raw[pos + 1 + nk..]
  {
    var a, b := raw[pos..][1..nk + 1], raw[pos + 1..pos + 1 + nk];
    assert |a| == |b| && forall x :: 0 <= x < nk ==> a[x] == b[x];
  }

  lemma RowsEnd(raw: seq<Byte>, bpp: nat, nk: nat, prior: seq<Byte>, rows: seq<seq<Byte>>)
    requires bpp >= 1 && |prior| == nk
    ensures Joined(rows, DecodeRows(raw, bpp, nk, 0, prior)) == Some(rows)
  {
    assert rows + [] == rows;
  }

  lemma RowStep(raw: seq<Byte>, bpp: nat, nk: nat, y: nat, prior: seq<Byte>, rows: seq<seq<Byte>>)
    requires bpp >= 1 && |prior| == nk && y >= 1
    ensures |raw| < nk + 1 || raw[0] > 4 ==> Joined(rows, DecodeRows(raw, bpp, nk, y, prior)).None?
    ensures |raw| >= nk + 1 && raw[0] <= 4 ==>
              var row := ReconRow(raw[0], bpp, raw[1..nk + 1], prior, nk);
              Joined(rows, DecodeRows(raw, bpp, nk, y, prior)) ==
              Joined(rows + [row], DecodeRows(raw[nk + 1..], bpp, nk, y - 1, row))
  {
    if |raw| >= nk + 1 && raw[0] <= 4 {
      var row := ReconRow(raw[0], bpp, raw[1..nk + 1], prior, nk);
      var rest := DecodeRows(raw[nk + 1..], bpp, nk, y - 1, row);
      if rest.Some? {
        assert rows + ([row] + rest.value) == rows + [row] + rest.value;
      }
    }
  }
}
