/** Samples of 1, 2, 4, 8 and 16 bits in the bytes of a PNG row, and as the decoder stores them. */
module PngSamples {
  import opened Powers
  import opened Bits

  /** Channels, bits per sample, whether low depths are scaled to full range, and whether alpha is to be added. */
  datatype Format = Format(n: nat, depth: nat, gray: bool, alpha: bool)

  predicate FormatOk(f: Format) {
    && 1 <= f.n <= 4 && f.depth in {1, 2, 4, 8, 16}
    && (f.alpha ==> f.n == 1 || f.n == 3)
  }

  /** The samples of one pixel. */
  type Pixel = seq<nat>

  /** Channels in the output. */
  function OutN(f: Format): nat {
    if f.alpha then f.n + 1 else f.n
  }

  /** Bytes of a stored sample. */
  function SampleBytes(f: Format): nat {
    if f.depth == 16 then 2 else 1
  }

  function RowBytes(f: Format, x: nat): nat {
    (f.n * x * f.depth + 7) / 8
  }

  /** The distance to the byte on the left that the filters use. */
  function FilterBytes(f: Format): nat {
    if f.depth < 8 then 1 else f.n * SampleBytes(f)
  }

  // ---- packed samples (section 7.2 of the PNG specification) ----

  function Base(depth: nat): (b: nat)
    requires depth in {1, 2, 4, 8}
    ensures b >= 2
  {
    if depth == 1 then 2 else if depth == 2 then 4 else if depth == 4 then 16 else 256
  }

  /** Samples in a byte. */
  function PerByte(depth: nat): (n: nat)
    requires depth in {1, 2, 4, 8}
    ensures n >= 1
  {
    8 / depth
  }

  function Power(base: nat, k: nat): nat {
    if k == 0 then 1 else base * Power(base, k - 1)
  }

  /** Samples side by side in `room` places, the first in the high-order bits, zeros behind them. */
  function PackedByte(ss: seq<nat>, base: nat, room: nat): nat {
    if room == 0 || ss == [] then 0
    else ss[0] * Power(base, room - 1) + PackedByte(ss[1..], base, room - 1)
  }

  ghost predicate AllBelow(ss: seq<nat>, base: nat) {
    forall i :: 0 <= i < |ss| ==> ss[i] < base
  }

  lemma {:induction false} PackedBound(ss: seq<nat>, base: nat, room: nat)
    requires AllBelow(ss, base) && base >= 1
    ensures PackedByte(ss, base, room) < Power(base, room)
    decreases room
  {
    if room == 0 {
    } else if ss == [] {
      PowerPositive(base, room);
    } else {
      PackedBound(ss[1..], base, room - 1);
      DigitBound(ss[0], base, Power(base, room - 1), PackedByte(ss[1..], base, room - 1));
    }
  }

  lemma {:induction false} PowerPositive(base: nat, k: nat)
    requires base >= 1
    ensures Power(base, k) >= 1
  {
    if k > 0 {
      PowerPositive(base, k - 1);
      MulAtLeast(base, Power(base, k - 1));
    }
  }

  lemma DigitBound(d: nat, base: nat, p: nat, low: nat)
    requires d < base && low < p
    ensures d * p + low < base * p
  {
    assert (d + 1) * p == d * p + p;
    assert (d + 1) * p <= base * p;
  }

  /** One place more to the right multiplies by the base. */
  lemma {:induction false} PackedShift(ss: seq<nat>, base: nat, room: nat)
    requires |ss| <= room
    ensures PackedByte(ss, base, room + 1) == PackedByte(ss, base, room) * base
    decreases room
  {
    if ss != [] {
      PackedShift(ss[1..], base, room - 1);
      var p, low := Power(base, room - 1), PackedByte(ss[1..], base, room - 1);
      assert Power(base, room) == base * p;
      Regroup(ss[0], base, p, low);
    }
  }

  lemma Regroup(d: nat, base: nat, p: nat, low: nat)
    ensures d * (base * p) + low * base == (d * p + low) * base
  {
  }

  lemma WholeByte(depth: nat)
    requires depth in {1, 2, 4, 8}
    ensures Power(Base(depth), PerByte(depth)) == 256
    ensures Power(Base(depth), PerByte(depth) - 1) == 256 / Base(depth)
  {
    assert Power(2, 2) == 4 && Power(2, 3) == 8 && Power(2, 4) == 16 && Power(2, 5) == 32 && Power(2, 6) == 64;
    assert Power(4, 1) == 4 && Power(4, 2) == 16 && Power(4, 3) == 64;
    assert Power(16, 0) == 1 && Power(16, 1) == 16 && Power(256, 0) == 1;
  }

  /** A row of packed samples; 16-bit ones high byte first. */
  function Packed(ss: seq<nat>, depth: nat): (bytes: seq<Byte>)
    requires depth in {1, 2, 4, 8, 16} && AllBelow(ss, if depth == 16 then 0x1_0000 else Base(depth))
    decreases |ss|
  {
    if ss == [] then []
    else if depth == 16 then [ss[0] / 256, ss[0] % 256] + Packed(ss[1..], depth)
    else
      var m := if |ss| < PerByte(depth) then |ss| else PerByte(depth);
      PackedBound(ss[..m], Base(depth), PerByte(depth));
      WholeByte(depth);
      [PackedByte(ss[..m], Base(depth), PerByte(depth))] + Packed(ss[m..], depth)
  }

  lemma {:induction false} PackedLength(ss: seq<nat>, depth: nat)
    requires depth in {1, 2, 4, 8, 16} && AllBelow(ss, if depth == 16 then 0x1_0000 else Base(depth))
    ensures |Packed(ss, depth)| == (|ss| * depth + 7) / 8
    decreases |ss|
  {
    hide PackedByte, Power;
    if ss == [] {
    } else if depth == 16 {
      PackedLength(ss[1..], depth);
    } else {
      var m := if |ss| < PerByte(depth) then |ss| else PerByte(depth);
      PackedLength(ss[m..], depth);
      ByteMore(|ss|, depth, m);
    }
  }

  lemma ByteMore(n: nat, depth: nat, m: nat)
    requires depth in {1, 2, 4, 8} && n > 0 && m == if n < PerByte(depth) then n else PerByte(depth)
    ensures (n * depth + 7) / 8 == 1 + ((n - m) * depth + 7) / 8
  {
    if depth == 1 {
    } else if depth == 2 {
    } else if depth == 4 {
    } else {
    }
  }

  // ---- unpacking ----

  /** The next sample: the high-order bits of a byte. */
  function TopBits(inb: nat, depth: nat): nat
    requires depth in {1, 2, 4, 8}
  {
    inb / (256 / Base(depth))
  }

  /** The byte shifted left by one sample. */
  function ShiftedUp(inb: nat, depth: nat): nat
    requires depth in {1, 2, 4, 8}
  {
    inb * Base(depth) % 256
  }

  /**
   * The next `count` samples, when the high-order bits of `inb` hold `left` more: the top bits of the byte, then
   * the byte shifted left, and a fresh byte when it is used up.
   */
  function UnpackFrom(inb: nat, left: nat, rest: seq<Byte>, count: nat, depth: nat): (ss: seq<nat>)
    requires depth in {1, 2, 4, 8}
    ensures |ss| <= count
    decreases count, if left == 0 then 1 else 0
  {
    if count == 0 || (left == 0 && rest == []) then []
    else if left == 0 then UnpackFrom(rest[0], PerByte(depth), rest[1..], count, depth)
    else
      [TopBits(inb, depth)]
      + UnpackFrom(ShiftedUp(inb, depth), left - 1, rest, count - 1, depth)
  }

  function UnpackWide(row: seq<Byte>, count: nat): (ss: seq<nat>)
    ensures |ss| <= count
  {
    if count == 0 || |row| < 2 then []
    else
      var high: nat, low: nat := row[0], row[1];
      [256 * high + low] + UnpackWide(row[2..], count - 1)
  }

  /** The samples in the bytes of a row. */
  function Unpacked(row: seq<Byte>, count: nat, depth: nat): (ss: seq<nat>)
    requires depth in {1, 2, 4, 8, 16}
    ensures |ss| <= count
  {
    if depth == 16 then UnpackWide(row, count) else UnpackFrom(0, 0, row, count, depth)
  }

  lemma {:induction false} WideBack(ss: seq<nat>)
    requires AllBelow(ss, 0x1_0000)
    ensures UnpackWide(Packed(ss, 16), |ss|) == ss
  {
    if ss != [] {
      WideBack(ss[1..]);
      var row := Packed(ss, 16);
      assert row[2..] == Packed(ss[1..], 16);
      assert [ss[0]] + ss[1..] == ss;
    }
  }

  /** The top bits are the first sample; shifting brings up the next. */
  lemma TopSample(ss: seq<nat>, depth: nat, b: nat)
    requires depth in {1, 2, 4, 8} && ss != [] && |ss| <= PerByte(depth) && AllBelow(ss, Base(depth))
    requires b == PackedByte(ss, Base(depth), PerByte(depth))
    ensures TopBits(b, depth) == ss[0]
    ensures ShiftedUp(b, depth) == PackedByte(ss[1..], Base(depth), PerByte(depth))
  {
    hide PackedByte, Power, Base, PerByte;
    var base, per := Base(depth), PerByte(depth);
    var p, low := Power(base, per - 1), PackedByte(ss[1..], base, per - 1);
    PackedStep(ss, base, per);
    WholeByte(depth);
    PackedBound(ss[1..], base, per - 1);
    ModUnique(b, ss[0], low, p);
    PackedShift(ss[1..], base, per - 1);
    ShiftedByte(ss[0], base, p, low);
    PowerStep(base, per);
    DigitBound(low, p, base, 0);
    ModUnique(b * base, ss[0], low * base, 256);
  }

  lemma PackedStep(ss: seq<nat>, base: nat, room: nat)
    requires ss != [] && room >= 1
    ensures PackedByte(ss, base, room) == ss[0] * Power(base, room - 1) + PackedByte(ss[1..], base, room - 1)
  {
  }

  lemma PowerStep(base: nat, k: nat)
    requires k >= 1
    ensures Power(base, k) == base * Power(base, k - 1) == Power(base, k - 1) * base
  {
  }

  lemma ShiftedByte(d: nat, base: nat, p: nat, low: nat)
    ensures (d * p + low) * base == d * (p * base) + low * base
  {
  }

  /** What was packed comes back, whatever bytes follow. */
  lemma {:induction false} FromBack(now: seq<nat>, later: seq<nat>, depth: nat, inb: nat, left: nat)
    requires depth in {1, 2, 4, 8} && AllBelow(now, Base(depth)) && AllBelow(later, Base(depth))
    requires |now| <= left <= PerByte(depth) && (later != [] ==> |now| == left)
    requires inb == PackedByte(now, Base(depth), PerByte(depth))
    ensures UnpackFrom(inb, left, Packed(later, depth), |now| + |later|, depth) == now + later
    decreases |now| + |later|, if left == 0 then 1 else 0
  {
    hide PackedByte, Power, Base, PerByte, Packed, UnpackFrom, AllBelow;
    var rest := Packed(later, depth);
    if now != [] {
      BelowSlices(now, Base(depth), 1);
      TopSample(now, depth, inb);
      FromStep(inb, left, rest, |now| + |later|, depth);
      FromBack(now[1..], later, depth, ShiftedUp(inb, depth), left - 1);
      Front(now, later);
    } else if later != [] {
      var m := if |later| < PerByte(depth) then |later| else PerByte(depth);
      BelowSlices(later, Base(depth), m);
      NextByte(later, depth, m);
      FromFetch(inb, rest, |later|, depth);
      FromBack(later[..m], later[m..], depth, rest[0], PerByte(depth));
      assert later[..m] + later[m..] == later && now + later == later;
    } else {
      FromNone(inb, left, rest, depth);
      assert now + later == [];
    }
  }

  lemma Front(now: seq<nat>, later: seq<nat>)
    requires now != []
    ensures [now[0]] + (now[1..] + later) == now + later
  {
  }

  lemma BelowSlices(ss: seq<nat>, base: nat, m: nat)
    requires AllBelow(ss, base) && m <= |ss|
    ensures AllBelow(ss[..m], base) && AllBelow(ss[m..], base)
  {
  }

  lemma FromStep(inb: nat, left: nat, rest: seq<Byte>, count: nat, depth: nat)
    requires depth in {1, 2, 4, 8} && left > 0 && count > 0
    ensures UnpackFrom(inb, left, rest, count, depth)
            == [TopBits(inb, depth)] + UnpackFrom(ShiftedUp(inb, depth), left - 1, rest, count - 1, depth)
  {
    hide Base;
  }

  lemma FromFetch(inb: nat, rest: seq<Byte>, count: nat, depth: nat)
    requires depth in {1, 2, 4, 8} && rest != [] && count > 0
    ensures UnpackFrom(inb, 0, rest, count, depth) == UnpackFrom(rest[0], PerByte(depth), rest[1..], count, depth)
  {
    hide Base;
  }

  lemma FromNone(inb: nat, left: nat, rest: seq<Byte>, depth: nat)
    requires depth in {1, 2, 4, 8}
    ensures UnpackFrom(inb, left, rest, 0, depth) == []
  {
  }

  lemma NextByte(ss: seq<nat>, depth: nat, m: nat)
    requires depth in {1, 2, 4, 8} && AllBelow(ss, Base(depth)) && ss != []
    requires m == if |ss| < PerByte(depth) then |ss| else PerByte(depth)
    ensures m >= 1 && Packed(ss, depth) != []
    ensures Packed(ss, depth)[0] == PackedByte(ss[..m], Base(depth), PerByte(depth))
    ensures Packed(ss, depth)[1..] == Packed(ss[m..], depth)
  {
    hide PackedByte, Power;
  }

  /** Unpacking undoes packing for every depth. */
  lemma UnpackedBack(ss: seq<nat>, depth: nat)
    requires depth in {1, 2, 4, 8, 16} && AllBelow(ss, if depth == 16 then 0x1_0000 else Base(depth))
    ensures Unpacked(Packed(ss, depth), |ss|, depth) == ss
  {
    if depth == 16 {
      WideBack(ss);
    } else {
      FromBack([], ss, depth, 0, 0);
      assert [] + ss == ss;
    }
  }

  /** A full row unpacks to all its samples. */
  lemma {:induction false} FromLength(inb: nat, left: nat, rest: seq<Byte>, count: nat, depth: nat)
    requires depth in {1, 2, 4, 8} && count <= left + PerByte(depth) * |rest|
    ensures |UnpackFrom(inb, left, rest, count, depth)| == count
    decreases count, if left == 0 then 1 else 0
  {
    hide Base;
    if count == 0 {
    } else if left == 0 {
      assert rest != [];
      FromLength(rest[0], PerByte(depth), rest[1..], count, depth);
    } else {
      FromLength(ShiftedUp(inb, depth), left - 1, rest, count - 1, depth);
    }
  }

  lemma {:induction false} WideLength(row: seq<Byte>, count: nat)
    requires 2 * count <= |row|
    ensures |UnpackWide(row, count)| == count
  {
    if count > 0 {
      WideLength(row[2..], count - 1);
    }
  }

  lemma UnpackedLength(row: seq<Byte>, count: nat, depth: nat)
    requires depth in {1, 2, 4, 8, 16} && |row| == (count * depth + 7) / 8
    ensures |Unpacked(row, count, depth)| == count
  {
    if depth == 16 {
      WideLength(row, count);
    } else {
      EnoughBytes(count, depth);
      FromLength(0, 0, row, count, depth);
    }
  }

  lemma EnoughBytes(count: nat, depth: nat)
    requires depth in {1, 2, 4, 8}
    ensures count <= PerByte(depth) * ((count * depth + 7) / 8)
  {
    if depth == 1 {
    } else if depth == 2 {
    } else if depth == 4 {
    } else {
    }
  }
}
