/** One row of an image: from reconstructed bytes to the samples the decoder stores, alpha included. */
module PngRows {
  import opened Bits
  import opened PngSamples

  // ---- the alpha channel ----

  /** Full alpha after every pixel of n samples. */
  function AddAlpha(samples: seq<nat>, n: nat, top: nat): seq<nat>
    requires n >= 1
    decreases |samples|
  {
    if |samples| < n then [] else samples[..n] + [top] + AddAlpha(samples[n..], n, top)
  }

  /** stbi__create_png_alpha_expand8: backwards, so that dest may be src. */
  method AlphaExpand(dest: array<nat>, src: array<nat>, x: nat, n: nat)
    requires n == 1 || n == 3
    requires x * (n + 1) <= dest.Length && x * n <= src.Length
    modifies dest
    ensures dest[..x * (n + 1)] == AddAlpha(old(src[..x * n]), n, 255)
  {
    if n == 1 {
      AlphaExpand1(dest, src, x);
    } else {
      AlphaExpand3(dest, src, x);
    }
  }

  method AlphaExpand1(dest: array<nat>, src: array<nat>, x: nat)
    requires 2 * x <= dest.Length && x <= src.Length
    modifies dest
    ensures dest[..2 * x] == AddAlpha(old(src[..x]), 1, 255)
  {
    hide AddAlpha;
    ghost var samples := src[..x];
    AlphaNone(samples[x..], 1, 255);
    var i := x;
    while i > 0
      invariant 0 <= i <= x
      invariant dest[2 * i..2 * x] == AddAlpha(samples[i..], 1, 255)
      invariant src[..i] == samples[..i]
      modifies dest
    {
      i := i - 1;
      AlphaStep1(samples, i);
      Pixel1(dest, src, i, x, samples);
    }
    assert samples[0..] == samples && dest[0..2 * x] == dest[..2 * x];
  }

  lemma AlphaStep1(samples: seq<nat>, k: nat)
    requires k < |samples|
    ensures AddAlpha(samples[k..], 1, 255) == [samples[k], 255] + AddAlpha(samples[k + 1..], 1, 255)
  {
    assert samples[k..][..1] == [samples[k]] && samples[k..][1..] == samples[k + 1..];
  }

  method Pixel1(dest: array<nat>, src: array<nat>, i: nat, x: nat, ghost samples: seq<nat>)
    requires 2 * x <= dest.Length && x <= src.Length && i < x && |samples| == x
    requires src[..i + 1] == samples[..i + 1]
    modifies dest
    ensures dest[2 * i..2 * x] == [samples[i], 255] + old(dest[2 * i + 2..2 * x])
    ensures src[..i] == samples[..i]
  {
    ghost var known := src[..i + 1];
    assert src[i] == known[i];
    dest[i * 2 + 1] := 255;
    dest[i * 2] := src[i];
    assert src[..i] == known[..i];
  }

  method AlphaExpand3(dest: array<nat>, src: array<nat>, x: nat)
    requires 4 * x <= dest.Length && 3 * x <= src.Length
    modifies dest
    ensures dest[..4 * x] == AddAlpha(old(src[..3 * x]), 3, 255)
  {
    hide AddAlpha;
    ghost var samples := src[..3 * x];
    AlphaNone(samples[3 * x..], 3, 255);
    var i := x;
    while i > 0
      invariant 0 <= i <= x
      invariant dest[4 * i..4 * x] == AddAlpha(samples[3 * i..], 3, 255)
      invariant src[..3 * i] == samples[..3 * i]
      modifies dest
    {
      i := i - 1;
      AlphaStep(samples, 3 * i);
      Pixel3(dest, src, i, x, samples);
    }
    assert samples[0..] == samples && dest[0..4 * x] == dest[..4 * x];
  }

  lemma AlphaNone(samples: seq<nat>, n: nat, top: nat)
    requires n >= 1
    ensures samples == [] ==> AddAlpha(samples, n, top) == []
  {
  }

  lemma AlphaStep(samples: seq<nat>, k: nat)
    requires k + 3 <= |samples|
    ensures AddAlpha(samples[k..], 3, 255)
            == [samples[k], samples[k + 1], samples[k + 2], 255] + AddAlpha(samples[k + 3..], 3, 255)
  {
    assert samples[k..][..3] == [samples[k], samples[k + 1], samples[k + 2]] && samples[k..][3..] == samples[k + 3..];
  }

  method Pixel3(dest: array<nat>, src: array<nat>, i: nat, x: nat, ghost samples: seq<nat>)
    requires 4 * x <= dest.Length && 3 * x <= src.Length && i < x && |samples| == 3 * x
    requires src[..3 * i + 3] == samples[..3 * i + 3]
    modifies dest
    ensures dest[4 * i..4 * x]
            == [samples[3 * i], samples[3 * i + 1], samples[3 * i + 2], 255] + old(dest[4 * i + 4..4 * x])
    ensures src[..3 * i] == samples[..3 * i]
  {
    ghost var known := src[..3 * i + 3];
    assert src[3 * i] == known[3 * i] && src[3 * i + 1] == known[3 * i + 1] && src[3 * i + 2] == known[3 * i + 2];
    ghost var done := dest[4 * i + 4..4 * x];
    dest[i * 4 + 3] := 255;
    dest[i * 4 + 2] := src[i * 3 + 2];
    dest[i * 4 + 1] := src[i * 3 + 1];
    dest[i * 4] := src[i * 3];
    assert src[..3 * i] == known[..3 * i];
    assert dest[4 * i + 4..4 * x] == done;
    assert dest[4 * i..4 * x] == dest[4 * i..4 * i + 4] + done;
  }

  // ---- what a row becomes ----

  /** Gray samples of low depth are spread over 0..255. */
  function Scale(f: Format): nat {
    if !f.gray || f.depth >= 8 then 1 else if f.depth == 1 then 0xFF else if f.depth == 2 then 0x55 else 0x11
  }

  function Scaled(ss: seq<nat>, scale: nat): (r: seq<nat>)
    ensures |r| == |ss|
  {
    seq(|ss|, i requires 0 <= i < |ss| => scale * ss[i])
  }

  /** Full alpha. */
  function Top(f: Format): nat {
    if f.depth == 16 then 0xFFFF else 255
  }

  function OutSamples(f: Format, ss: seq<nat>): seq<nat>
    requires f.n >= 1
  {
    if f.alpha then AddAlpha(Scaled(ss, Scale(f)), f.n, Top(f)) else Scaled(ss, Scale(f))
  }

  /** The stored samples of a row of x pixels. */
  function OutRow(f: Format, row: seq<Byte>, x: nat): seq<nat>
    requires FormatOk(f)
  {
    OutSamples(f, Unpacked(row, f.n * x, f.depth))
  }

  // ---- the conversion loops ----

  lemma ScaledStep(done: seq<nat>, s: nat, rest: seq<nat>, scale: nat)
    ensures done + Scaled([s] + rest, scale) == done + [scale * s] + Scaled(rest, scale)
    ensures Scaled([], scale) == []
  {
    assert Scaled([s] + rest, scale) == [scale * s] + Scaled(rest, scale);
  }

  /** After i samples the current byte has `left` more. */
  ghost predicate InStep(i: nat, left: nat, per: nat)
    requires per in {2, 4, 8}
  {
    left < per && (i + left) % per == 0
  }

  /** Whether the next sample starts a new byte. */
  lemma ByteBoundary(i: nat, left: nat, per: nat)
    requires per in {2, 4, 8} && InStep(i, left, per)
    ensures i % per == 0 <==> left == 0
    ensures InStep(i + 1, if left == 0 then per - 1 else left - 1, per)
  {
    if per == 2 {
      Boundary2(i, left);
    } else if per == 4 {
      Boundary4(i, left);
    } else {
      Boundary8(i, left);
    }
  }

  lemma Boundary2(i: nat, left: nat)
    requires left < 2 && (i + left) % 2 == 0
    ensures i % 2 == 0 <==> left == 0
    ensures left == 0 ==> (i + 2) % 2 == 0
  {
  }

  lemma Boundary4(i: nat, left: nat)
    requires left < 4 && (i + left) % 4 == 0
    ensures i % 4 == 0 <==> left == 0
    ensures left == 0 ==> (i + 4) % 4 == 0
  {
  }

  lemma Boundary8(i: nat, left: nat)
    requires left < 8 && (i + left) % 8 == 0
    ensures i % 8 == 0 <==> left == 0
    ensures left == 0 ==> (i + 8) % 8 == 0
  {
  }

  lemma PerIs(depth: nat)
    requires depth in {1, 2, 4}
    ensures PerByte(depth) in {2, 4, 8} && InStep(0, 0, PerByte(depth))
  {
  }

  /** The bytes that are left hold enough samples. */
  ghost predicate Enough(count: nat, left: nat, per: nat, bytes: nat) {
    count <= left + per * bytes
  }

  lemma EnoughStep(count: nat, left: nat, per: nat, bytes: nat)
    requires Enough(count, left, per, bytes) && count >= 1 && per >= 1
    ensures left == 0 ==> bytes >= 1 && Enough(count - 1, per - 1, per, bytes - 1)
    ensures left > 0 ==> Enough(count - 1, left - 1, per, bytes)
  {
    if left == 0 {
      assert bytes != 0;
      assert per * bytes == per * (bytes - 1) + per;
    }
  }

  /** The three loops that expand bits to bytes, which differ in their constants only. */
  method ExpandBits(cur: seq<Byte>, dest: array<nat>, nsmp: nat, depth: nat, scale: nat)
    requires depth in {1, 2, 4} && nsmp <= dest.Length && nsmp <= PerByte(depth) * |cur|
    modifies dest
    ensures dest[..nsmp] == Scaled(UnpackFrom(0, 0, cur, nsmp, depth), scale)
  {
    hide Scaled, UnpackFrom, Base, PerByte, TopBits, ShiftedUp, InStep;
    var per := PerByte(depth);
    PerIs(depth);
    var i: nat, at: nat, inb: nat := 0, 0, 0;
    ghost var left: nat := 0;
    ghost var all := Scaled(UnpackFrom(0, 0, cur, nsmp, depth), scale);
    assert cur[0..] == cur && dest[..0] + all == all;
    while i < nsmp
      invariant i <= nsmp && at <= |cur| && InStep(i, left, per) && Enough(nsmp - i, left, per, |cur| - at)
      invariant dest[..i] + Scaled(UnpackFrom(inb, left, cur[at..], nsmp - i, depth), scale) == all
      modifies dest
    {
      hide Enough;
      ByteBoundary(i, left, per);
      EnoughStep(nsmp - i, left, per, |cur| - at);
      if i % per == 0 {
        FromFetch(inb, cur[at..], nsmp - i, depth);
        inb, left := cur[at], per;
        assert cur[at..][0] == cur[at] && cur[at..][1..] == cur[at + 1..];
        at := at + 1;
      }
      FromStep(inb, left, cur[at..], nsmp - i, depth);
      ScaledStep(dest[..i], TopBits(inb, depth),
                 UnpackFrom(ShiftedUp(inb, depth), left - 1, cur[at..], nsmp - i - 1, depth), scale);
      PutSample(dest, i, scale * TopBits(inb, depth));
      inb := ShiftedUp(inb, depth);
      i, left := i + 1, left - 1;
    }
    FromNone(inb, left, cur[at..], depth);
    ScaledStep([], 0, [], scale);
    assert dest[..i] + [] == dest[..i];
  }

  method PutSample(dest: array<nat>, i: nat, v: nat)
    requires i < dest.Length
    modifies dest
    ensures dest[..i + 1] == old(dest[..i]) + [v]
  {
    dest[i] := v;
  }

  /** Big-endian 16-bit samples, with alpha interleaved if wanted. */
  method ExpandWide(cur: seq<Byte>, x: nat, n: nat, alpha: bool) returns (dest: seq<nat>)
    requires n >= 1 && |cur| == 2 * (n * x) && (alpha ==> n == 1 || n == 3)
    ensures dest == if alpha then AddAlpha(UnpackWide(cur, n * x), n, 0xFFFF) else UnpackWide(cur, n * x)
  {
    if !alpha {
      dest := WideSamples(cur, n * x);
    } else if n == 1 {
      dest := WideGray(cur, x);
    } else {
      dest := WideColour(cur, x);
    }
  }

  function Wide(cur: seq<Byte>, at: nat): nat
    requires at + 1 < |cur|
  {
    var high: nat, low: nat := cur[at], cur[at + 1];
    256 * high + low
  }

  lemma WideStep(cur: seq<Byte>, at: nat, count: nat)
    requires at + 2 <= |cur| && count >= 1
    ensures UnpackWide(cur[at..], count) == [Wide(cur, at)] + UnpackWide(cur[at + 2..], count - 1)
  {
    assert cur[at..][2..] == cur[at + 2..];
  }

  method WideSamples(cur: seq<Byte>, nsmp: nat) returns (dest: seq<nat>)
    requires |cur| == 2 * nsmp
    ensures dest == UnpackWide(cur, nsmp)
  {
    hide UnpackWide;
    dest := [];
    assert cur[0..] == cur && dest + UnpackWide(cur, nsmp) == UnpackWide(cur, nsmp);
    var i := 0;
    while i < nsmp
      invariant 0 <= i <= nsmp
      invariant dest + UnpackWide(cur[2 * i..], nsmp - i) == UnpackWide(cur, nsmp)
    {
      WideStep(cur, 2 * i, nsmp - i);
      dest := dest + [Wide(cur, 2 * i)];
      i := i + 1;
    }
    WideNone(cur[2 * i..]);
  }

  lemma WideNone(cur: seq<Byte>)
    ensures UnpackWide(cur, 0) == []
  {
  }

  method WideGray(cur: seq<Byte>, x: nat) returns (dest: seq<nat>)
    requires |cur| == 2 * x
    ensures dest == AddAlpha(UnpackWide(cur, x), 1, 0xFFFF)
  {
    hide UnpackWide, AddAlpha, Wide;
    dest := [];
    ghost var all := AddAlpha(UnpackWide(cur, x), 1, 0xFFFF);
    assert cur[0..] == cur && dest + all == all;
    var i := 0;
    while i < x
      invariant 0 <= i <= x
      invariant dest + AddAlpha(UnpackWide(cur[2 * i..], x - i), 1, 0xFFFF) == all
    {
      WideStep(cur, 2 * i, x - i);
      AlphaPixel([Wide(cur, 2 * i)], UnpackWide(cur[2 * i + 2..], x - i - 1), 0xFFFF, dest);
      dest := dest + [Wide(cur, 2 * i), 0xFFFF];
      i := i + 1;
    }
    WideNone(cur[2 * i..]);
    AlphaNone([], 1, 0xFFFF);
  }

  method WideColour(cur: seq<Byte>, x: nat) returns (dest: seq<nat>)
    requires |cur| == 2 * (3 * x)
    ensures dest == AddAlpha(UnpackWide(cur, 3 * x), 3, 0xFFFF)
  {
    hide UnpackWide, AddAlpha, Wide;
    dest := [];
    ghost var all := AddAlpha(UnpackWide(cur, 3 * x), 3, 0xFFFF);
    assert cur[0..] == cur && dest + all == all;
    var i := 0;
    while i < x
      invariant 0 <= i <= x
      invariant dest + AddAlpha(UnpackWide(cur[6 * i..], 3 * (x - i)), 3, 0xFFFF) == all
    {
      WideThree(cur, 6 * i, 3 * (x - i));
      var px := [Wide(cur, 6 * i), Wide(cur, 6 * i + 2), Wide(cur, 6 * i + 4)];
      AlphaPixel(px, UnpackWide(cur[6 * i + 6..], 3 * (x - i) - 3), 0xFFFF, dest);
      dest := dest + (px + [0xFFFF]);
      i := i + 1;
    }
    WideNone(cur[6 * i..]);
    AlphaNone([], 3, 0xFFFF);
  }

  lemma WideThree(cur: seq<Byte>, at: nat, count: nat)
    requires at + 6 <= |cur| && count >= 3
    ensures UnpackWide(cur[at..], count)
            == [Wide(cur, at), Wide(cur, at + 2), Wide(cur, at + 4)] + UnpackWide(cur[at + 6..], count - 3)
  {
    hide UnpackWide, Wide;
    WideStep(cur, at, count);
    WideStep(cur, at + 2, count - 1);
    WideStep(cur, at + 4, count - 2);
  }

  lemma AlphaPixel(px: seq<nat>, rest: seq<nat>, top: nat, done: seq<nat>)
    requires px != []
    ensures done + AddAlpha(px + rest, |px|, top) == done + (px + [top]) + AddAlpha(rest, |px|, top)
  {
    var ss := px + rest;
    assert ss[..|px|] == px && ss[|px|..] == rest;
    Regrouped(done, px + [top], AddAlpha(rest, |px|, top));
  }

  lemma Regrouped(a: seq<nat>, b: seq<nat>, c: seq<nat>)
    ensures a + (b + c) == a + b + c
  {
  }

  /** A reconstructed row as it is stored in the output. */
  method DestRow(f: Format, cur: seq<Byte>, x: nat) returns (dest: seq<nat>)
    requires FormatOk(f) && |cur| == RowBytes(f, x)
    ensures dest == OutRow(f, cur, x)
  {
    hide AddAlpha, UnpackFrom, UnpackWide, Scaled;
    var nsmp := f.n * x;
    if f.depth == 16 {
      assert |cur| == 2 * nsmp;
      dest := ExpandWide(cur, x, f.n, f.alpha);
      ScaledByOne(UnpackWide(cur, nsmp));
      return;
    }
    var out := new nat[x * OutN(f)];
    RowFits(x, f.n, OutN(f));
    UnpackedLength(cur, nsmp, f.depth);
    if f.depth < 8 {
      EnoughBytes(nsmp, f.depth);
      ExpandBits(cur, out, nsmp, f.depth, Scale(f));
      if f.alpha {
        AlphaExpand(out, out, x, f.n);
      }
    } else {
      BytesAreSamples(cur);
      ScaledByOne(cur);
      var src := new nat[nsmp](i requires 0 <= i < |cur| => cur[i]);
      assert src[..nsmp] == cur;
      if f.alpha {
        AlphaExpand(out, src, x, f.n);
      } else {
        out := src;
      }
    }
    dest := out[..x * OutN(f)];
  }

  lemma RowFits(x: nat, n: nat, m: nat)
    requires n <= m
    ensures n * x == x * n <= x * m
  {
  }

  lemma ScaledByOne(ss: seq<nat>)
    ensures Scaled(ss, 1) == ss
  {
  }

  /** With 8 bits the samples are the bytes. */
  lemma {:induction false} BytesAreSamples(cur: seq<Byte>)
    ensures UnpackFrom(0, 0, cur, |cur|, 8) == cur
  {
    if cur != [] {
      FromFetch(0, cur, |cur|, 8);
      FromStep(cur[0], 1, cur[1..], |cur|, 8);
      BytesAreSamples(cur[1..]);
      assert [cur[0]] + cur[1..] == cur;
    }
  }

  // ---- rows of pixels ----

  function Flatten(ps: seq<Pixel>): seq<nat> {
    if ps == [] then [] else ps[0] + Flatten(ps[1..])
  }

  ghost predicate AllWide(ps: seq<Pixel>, m: nat) {
    forall i :: 0 <= i < |ps| ==> |ps[i]| == m
  }

  /** Pixel i of a row of m samples each. */
  function PixelAt(row: seq<nat>, i: nat, m: nat): Pixel
    requires i * m + m <= |row|
  {
    row[i * m..i * m + m]
  }

  lemma {:induction false} FlattenLength(ps: seq<Pixel>, m: nat)
    requires AllWide(ps, m)
    ensures |Flatten(ps)| == |ps| * m
  {
    if ps != [] {
      FlattenLength(ps[1..], m);
      OneLess(|ps|, m);
    }
  }

  lemma OneLess(n: nat, m: nat)
    requires n >= 1
    ensures n * m == (n - 1) * m + m && (n - 1) * m >= 0
  {
  }

  lemma {:induction false} PixelOfFlatten(ps: seq<Pixel>, m: nat, i: nat)
    requires AllWide(ps, m) && i < |ps|
    ensures i * m + m <= |Flatten(ps)| && PixelAt(Flatten(ps), i, m) == ps[i]
  {
    var row, rest := Flatten(ps), Flatten(ps[1..]);
    if i == 0 {
      assert row[..m] == ps[0];
    } else {
      PixelOfFlatten(ps[1..], m, i - 1);
      OneLess(i, m);
      var a := (i - 1) * m;
      assert row[m..] == rest;
      assert row[m + a..m + a + m] == rest[a..a + m];
    }
  }

  /** A pixel as it is stored. */
  function OutPixel(f: Format, px: Pixel): Pixel {
    Scaled(px, Scale(f)) + if f.alpha then [Top(f)] else []
  }

  function OutPixels(f: Format, ps: seq<Pixel>): (r: seq<Pixel>)
    ensures |r| == |ps|
  {
    seq(|ps|, i requires 0 <= i < |ps| => OutPixel(f, ps[i]))
  }

  /** Storing a row is storing every pixel. */
  lemma {:induction false} OutSamplesOfFlatten(f: Format, ps: seq<Pixel>)
    requires f.n >= 1 && AllWide(ps, f.n)
    ensures OutSamples(f, Flatten(ps)) == Flatten(OutPixels(f, ps))
  {
    hide Scale, Top;
    if ps != [] {
      var row, rest := Flatten(ps), Flatten(ps[1..]);
      OutSamplesOfFlatten(f, ps[1..]);
      assert OutPixels(f, ps)[1..] == OutPixels(f, ps[1..]);
      ScaledBoth(ps[0], rest, Scale(f));
      if f.alpha {
        AlphaPixel(Scaled(ps[0], Scale(f)), Scaled(rest, Scale(f)), Top(f), []);
      }
    }
  }

  lemma ScaledBoth(a: seq<nat>, b: seq<nat>, scale: nat)
    ensures Scaled(a + b, scale) == Scaled(a, scale) + Scaled(b, scale)
  {
  }

  /** The values a sample can have. */
  function Range(f: Format): nat
    requires FormatOk(f)
  {
    if f.depth == 16 then 0x1_0000 else Base(f.depth)
  }

  ghost predicate PixelsOk(f: Format, ps: seq<Pixel>)
    requires FormatOk(f)
  {
    AllWide(ps, f.n) && forall i :: 0 <= i < |ps| ==> AllBelow(ps[i], Range(f))
  }

  lemma {:induction false} FlattenBelow(f: Format, ps: seq<Pixel>)
    requires FormatOk(f) && PixelsOk(f, ps)
    ensures AllBelow(Flatten(ps), Range(f))
  {
    hide Range;
    if ps != [] {
      FlattenBelow(f, ps[1..]);
    }
  }

  /** The bytes of a row of pixels. */
  ghost function RowOf(f: Format, ps: seq<Pixel>): (row: seq<Byte>)
    requires FormatOk(f) && PixelsOk(f, ps)
    ensures |row| == RowBytes(f, |ps|)
  {
    FlattenBelow(f, ps);
    FlattenLength(ps, f.n);
    PackedLength(Flatten(ps), f.depth);
    Packed(Flatten(ps), f.depth)
  }

  /** A row of pixels is stored pixel by pixel, whatever the depth. */
  lemma OutRowOfPixels(f: Format, ps: seq<Pixel>)
    requires FormatOk(f) && PixelsOk(f, ps)
    ensures OutRow(f, RowOf(f, ps), |ps|) == Flatten(OutPixels(f, ps))
  {
    hide Unpacked, Packed, OutSamples, OutPixels;
    FlattenBelow(f, ps);
    FlattenLength(ps, f.n);
    UnpackedBack(Flatten(ps), f.depth);
    OutSamplesOfFlatten(f, ps);
  }

  lemma OutRowLength(f: Format, row: seq<Byte>, x: nat)
    requires FormatOk(f) && |row| == RowBytes(f, x)
    ensures |OutRow(f, row, x)| == x * OutN(f)
  {
    hide Unpacked, AddAlpha, Scaled;
    UnpackedLength(row, f.n * x, f.depth);
    if f.alpha {
      AlphaLength(Scaled(Unpacked(row, f.n * x, f.depth), Scale(f)), x, f.n, Top(f));
    }
  }

  lemma {:induction false} AlphaLength(ss: seq<nat>, x: nat, n: nat, top: nat)
    requires n >= 1 && |ss| == n * x
    ensures |AddAlpha(ss, n, top)| == x * (n + 1)
    decreases x
  {
    if x > 0 {
      OneLess(x, n);
      OneLess(x, n + 1);
      AlphaLength(ss[n..], x - 1, n, top);
    }
  }
}
