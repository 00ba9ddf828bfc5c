/** The output half of stbi__zbuf: a growable byte buffer that matches are copied within. */
module ZOutputs {
  import opened Bits
  import opened InflateSpec

  const UINT_MAX := 0xFFFF_FFFF

  /** What doubling a buffer size can reach before another doubling would not fit an unsigned int. */
  function Grown(size: nat): (limit: nat)
    requires size >= 1
    ensures limit >= size && limit > UINT_MAX / 2
    ensures size <= UINT_MAX ==> limit <= UINT_MAX
    decreases if size > UINT_MAX then 0 else UINT_MAX + 1 - size
  {
    if size > UINT_MAX / 2 then size else Grown(2 * size)
  }

  /** The longest output a buffer of this initial size takes. */
  function OutputLimit(size: nat, expandable: bool): nat
    requires size >= 1
  {
    if expandable then Grown(size) else size
  }

  /** The last byte of a longer copy comes from `dist` bytes before it. */
  lemma {:induction false} CopyBackStep(out: seq<Byte>, dist: nat, n: nat)
    requires 1 <= dist <= |out|
    ensures var r := CopyBack(out, dist, n);
            CopyBack(out, dist, n + 1) == r + [r[|r| - dist]]
    decreases n
  {
    var next := out + [out[|out| - dist]];
    assert CopyBack(out, dist, n + 1) == CopyBack(next, dist, n);
    if n == 0 {
      assert CopyBack(next, dist, 0) == next;
    } else {
      assert CopyBack(out, dist, n) == CopyBack(next, dist, n - 1);
      CopyBackStep(next, dist, n - 1);
    }
  }

  /** k modulo the distance, by repeated subtraction. */
  function Phase(k: nat, dist: nat): (p: nat)
    requires dist >= 1
    ensures p < dist
  {
    if k < dist then k else Phase(k - dist, dist)
  }

  /** An overlapping copy repeats the last `dist` bytes periodically. */
  lemma {:induction false} CopyBackPeriodic(out: seq<Byte>, dist: nat, n: nat, k: nat)
    requires 1 <= dist <= |out| && k < n
    ensures CopyBack(out, dist, n)[|out| + k] == out[|out| - dist + Phase(k, dist)]
    decreases n
  {
    var r := CopyBack(out, dist, n - 1);
    CopyBackStep(out, dist, n - 1);
    if k < n - 1 {
      CopyBackPeriodic(out, dist, n - 1, k);
    } else if k >= dist {
      CopyBackPeriodic(out, dist, n - 1, k - dist);
    }
  }

  class ZOutput {
    const expandable: bool
    const capacity: nat
    var buffer: array<Byte>
    var zout: nat

    constructor (capacity: nat, expandable: bool)
      requires 1 <= capacity <= UINT_MAX
      ensures Valid() && Contents() == [] && fresh(buffer)
      ensures this.capacity == capacity && this.expandable == expandable
    {
      this.capacity, this.expandable := capacity, expandable;
      buffer, zout := new Byte[capacity], 0;
    }

    ghost predicate Valid()
      reads this
    {
      && zout <= buffer.Length
      && 1 <= buffer.Length <= UINT_MAX && capacity >= 1
      && (if expandable then Grown(buffer.Length) == Grown(capacity) else buffer.Length == capacity)
    }

    ghost function Contents(): (s: seq<Byte>)
      requires Valid()
      reads this, buffer
      ensures |s| == zout
    {
      buffer[..zout]
    }

    /** Output fails for want of room exactly beyond this many bytes. */
    ghost function Limit(): nat
      requires capacity >= 1
    {
      OutputLimit(capacity, expandable)
    }

    /** stbi__zexpand: room for n more bytes, or failure beyond the limit. */
    method Expand(n: nat) returns (ok: bool)
      requires Valid()
      modifies this`buffer
      ensures Valid() && Contents() == old(Contents())
      ensures buffer == old(buffer) || fresh(buffer)
      ensures ok ==> zout + n <= buffer.Length
      ensures ok <==> expandable && zout + n <= Limit()
    {
      if !expandable {
        return false;
      }
      var cur, limit := zout, buffer.Length;
      if UINT_MAX - cur < n {
        return false;
      }
      while cur + n > limit
        invariant buffer.Length <= limit <= UINT_MAX && Grown(limit) == Limit()
        decreases cur + n - limit
      {
        if limit > UINT_MAX / 2 {
          return false;
        }
        limit := limit * 2;
      }
      var q := new Byte[limit];
      var i := 0;
      while i < buffer.Length
        invariant 0 <= i <= buffer.Length <= q.Length
        invariant q[..i] == buffer[..i]
        modifies q
      {
        q[i] := buffer[i];
        i := i + 1;
      }
      assert q[..zout] == q[..i][..zout] == buffer[..zout];
      buffer := q;
      return true;
    }

    method PutByte(b: Byte) returns (ok: bool)
      requires Valid()
      modifies this, buffer
      ensures Valid() && (buffer == old(buffer) || fresh(buffer))
      ensures ok ==> Contents() == old(Contents()) + [b]
      ensures ok <==> old(zout) + 1 <= Limit()
    {
      if zout >= buffer.Length {
        ok := Expand(1);
        if !ok { return; }
      }
      ghost var before := buffer[..zout];
      buffer[zout] := b;
      zout := zout + 1;
      assert buffer[..zout] == before + [b];
      return true;
    }

    /** The copy of a match, with the shortcut for runs of one byte. */
    method CopyMatch(length: nat, dist: nat) returns (ok: bool)
      requires Valid() && 1 <= dist <= zout
      modifies this, buffer
      ensures Valid() && (buffer == old(buffer) || fresh(buffer))
      ensures ok ==> Contents() == CopyBack(old(Contents()), dist, length)
      ensures ok <==> old(zout) + length <= Limit()
    {
      if length > buffer.Length - zout {
        ok := Expand(length);
        if !ok { return; }
      }
      if dist == 1 {
        CopyRun(length);
      } else {
        CopyBytes(length, dist);
      }
      return true;
    }

    method CopyRun(length: nat)
      requires Valid() && 1 <= zout && zout + length <= buffer.Length
      modifies this`zout, buffer
      ensures Valid() && Contents() == CopyBack(old(Contents()), 1, length)
    {
      ghost var out := Contents();
      var v, n := buffer[zout - 1], length;
      while n > 0
        invariant 0 <= n <= length && zout == |out| + (length - n) <= buffer.Length
        invariant buffer[..zout] == CopyBack(out, 1, length - n)
        invariant buffer[zout - 1] == v
        modifies this`zout, buffer
      {
        CopyBackStep(out, 1, length - n);
        ghost var before := buffer[..zout];
        buffer[zout] := v;
        zout := zout + 1;
        n := n - 1;
        assert buffer[..zout] == before + [v];
      }
    }

    method CopyBytes(length: nat, dist: nat)
      requires Valid() && 1 <= dist <= zout && zout + length <= buffer.Length
      modifies this`zout, buffer
      ensures Valid() && Contents() == CopyBack(old(Contents()), dist, length)
    {
      ghost var out := Contents();
      var p, n := zout - dist, length;
      while n > 0
        invariant 0 <= n <= length && zout == |out| + (length - n) <= buffer.Length
        invariant p == zout - dist
        invariant buffer[..zout] == CopyBack(out, dist, length - n)
        modifies this`zout, buffer
      {
        CopyBackStep(out, dist, length - n);
        ghost var before := buffer[..zout];
        assert before[p] == buffer[p];
        buffer[zout] := buffer[p];
        zout, p := zout + 1, p + 1;
        n := n - 1;
        assert buffer[..zout] == before + [before[p - 1]];
      }
    }

    /** The memcpy of a stored block. */
    method PutBytes(bytes: seq<Byte>) returns (ok: bool)
      requires Valid()
      modifies this, buffer
      ensures Valid() && (buffer == old(buffer) || fresh(buffer))
      ensures ok ==> Contents() == old(Contents()) + bytes
      ensures ok <==> old(zout) + |bytes| <= Limit()
    {
      if zout + |bytes| > buffer.Length {
        ok := Expand(|bytes|);
        if !ok { return; }
      }
      CopyIn(bytes);
      return true;
    }

    method CopyIn(bytes: seq<Byte>)
      requires Valid() && zout + |bytes| <= buffer.Length
      modifies this`zout, buffer
      ensures Valid() && Contents() == old(Contents()) + bytes
    {
      var i := 0;
      while i < |bytes|
        invariant 0 <= i <= |bytes|
        invariant buffer[..zout] == old(buffer[..zout])
        invariant forall k :: 0 <= k < i ==> buffer[zout + k] == bytes[k]
        modifies buffer
      {
        buffer[zout + i] := bytes[i];
        i := i + 1;
      }
      zout := zout + |bytes|;
    }
  }
}
