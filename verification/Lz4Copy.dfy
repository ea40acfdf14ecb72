/**
  * The copy routines of the LZ4 decoder, on one buffer whose length is the output limit.  They
  * copy in strides of 8, 16 or 32 bytes, run past the end they were asked for, and widen short
  * offsets, yet what they leave behind is the byte-by-byte copy.  Every `memcpy` here is called
  * on regions that do not overlap.
  */
module Lz4Copy {
  import opened Basics
  import opened ByteSeq
  import opened Lz4Format

  ghost predicate Agree(a: Bytes, b: Bytes, lo: nat, hi: nat) {
    |a| == |b| && forall i :: lo <= i < hi <= |a| ==> a[i] == b[i]
  }

  // ---------------------------------------------------------------- periods

  lemma {:induction false} PeriodSteps(t: Bytes, lo: nat, hi: nat, offset: nat, i: nat, m: nat)
    requires Periodic(t, lo, hi, offset) && 1 <= offset && offset <= lo && hi <= |t|
    requires m >= 1 && lo <= i < hi
    requires i - m * offset + offset >= lo
    ensures 0 <= i - m * offset < |t| && t[i] == t[i - m * offset]
    decreases m
  {
    if m > 1 {
      assert (m - 1) * offset == m * offset - offset;
      PeriodSteps(t, lo, hi, offset, i, m - 1);
      var j := i - (m - 1) * offset;
      assert t[j] == t[j - offset];
    }
  }

  lemma PeriodicJoin(t: Bytes, lo: nat, mid: nat, hi: nat, offset: nat)
    requires Periodic(t, lo, mid, offset) && Periodic(t, mid, hi, offset)
    requires lo <= mid <= hi <= |t|
    ensures Periodic(t, lo, hi, offset)
  {
  }

  // A stretch of period `offset`, continued with a multiple of it that reaches back into the
  // stretch, goes on with period `offset`.
  lemma {:induction false} PeriodTransfer(t: Bytes, lo: nat, mid: nat, hi: nat, offset: nat, m: nat)
    requires 1 <= offset <= lo <= mid <= hi <= |t| && m >= 1
    requires m * offset <= mid - lo + offset
    requires Periodic(t, lo, mid, offset)
    requires Periodic(t, mid, hi, m * offset)
    ensures Periodic(t, lo, hi, offset)
    decreases hi - mid
  {
    if mid < hi {
      assert t[mid] == t[mid - m * offset];
      OffsetStep(t, lo, mid, offset, m);
      PeriodTransfer(t, lo, mid + 1, hi, offset, m);
    }
  }

  lemma OffsetStep(t: Bytes, lo: nat, mid: nat, offset: nat, m: nat)
    requires 1 <= offset <= lo <= mid < |t| && m >= 1
    requires m * offset <= mid - lo + offset
    requires Periodic(t, lo, mid, offset)
    requires t[mid] == t[mid - m * offset]
    ensures Periodic(t, lo, mid + 1, offset)
  {
    if m > 1 {
      assert (m - 1) * offset == m * offset - offset;
      assert (m - 1) * offset >= offset by { Grows(m - 1, offset); }
      PeriodSteps(t, lo, mid, offset, mid - offset, m - 1);
    }
    assert t[mid] == t[mid - offset];
  }

  lemma Grows(m: nat, n: nat)
    requires m >= 1
    ensures m * n >= n
  {
  }

  ghost predicate AllZero(t: Bytes, lo: nat, hi: nat) {
    forall i :: lo <= i < hi <= |t| ==> t[i] == 0
  }

  // What a match leaves behind: its period, or zeros for an offset of 0.
  ghost predicate Copied(t: Bytes, lo: nat, hi: nat, offset: nat) {
    if offset == 0 then AllZero(t, lo, hi) else Periodic(t, lo, hi, offset)
  }

  // Zeros, copied on from within, stay zeros.
  lemma {:induction false} ZerosSpread(t: Bytes, lo: nat, mid: nat, hi: nat, distance: nat)
    requires lo <= mid <= hi <= |t| && 1 <= distance <= mid - lo
    requires AllZero(t, lo, mid) && Periodic(t, mid, hi, distance)
    ensures AllZero(t, lo, hi)
    decreases hi - mid
  {
    if mid < hi {
      assert t[mid] == t[mid - distance];
      ZerosSpread(t, lo, mid + 1, hi, distance);
    }
  }

  lemma CopiedShorter(t: Bytes, lo: nat, hi: nat, to: nat, offset: nat)
    requires Copied(t, lo, hi, offset) && to <= hi <= |t|
    ensures Copied(t, lo, to, offset)
  {
  }

  lemma CopiedKeeps(before: Bytes, now: Bytes, lo: nat, hi: nat, offset: nat)
    requires Copied(before, lo, hi, offset) && Agree(now, before, 0, hi) && hi <= |now|
    ensures Copied(now, lo, hi, offset)
  {
  }

  // ---------------------------------------------------------------- copies inside the buffer

  method CopyWithin(buf: array<Byte>, d: nat, s: nat, n: nat)
    requires s + n <= d && d + n <= buf.Length
    modifies buf
    ensures Agree(buf[..], old(buf[..]), 0, d)
    ensures Agree(buf[..], old(buf[..]), d + n, buf.Length)
    ensures Periodic(buf[..], d, d + n, d - s)
  {
    forall k | 0 <= k < n {
      buf[d + k] := buf[s + k];
    }
    forall i | d <= i < d + n
      ensures buf[..][i] == buf[..][i - (d - s)]
    {
      var k := i - d;
      assert buf[d + k] == old(buf[s + k]);
    }
  }

  method CopyIn(buf: array<Byte>, d: nat, src: Bytes, s: nat, n: nat)
    requires s + n <= |src| && d + n <= buf.Length
    modifies buf
    ensures Agree(buf[..], old(buf[..]), 0, d)
    ensures Agree(buf[..], old(buf[..]), d + n, buf.Length)
    ensures buf[d..d + n] == src[s..s + n]
  {
    forall k | 0 <= k < n {
      buf[d + k] := src[s + k];
    }
  }

  // How far an 8-byte stride copy to `e` writes.
  function Overrun(d: nat, e: nat, stride: nat): nat {
    Max(d + stride, e + stride - 1)
  }

  lemma PeriodicGrows(before: Bytes, after: Bytes, lo: nat, mid: nat, hi: nat, offset: nat)
    requires Periodic(before, lo, mid, offset) && Agree(after, before, 0, mid)
    requires Periodic(after, mid, hi, offset)
    requires lo <= mid <= hi <= |after|
    ensures Periodic(after, lo, hi, offset)
  {
  }

  lemma AgreeTrans(a: Bytes, b: Bytes, c: Bytes, lo: nat, mid: nat, hi: nat)
    requires Agree(a, b, mid, hi) && Agree(b, c, lo, hi) && lo <= mid
    ensures Agree(a, c, mid, hi)
  {
  }

  lemma AgreeBelow(a: Bytes, b: Bytes, c: Bytes, lo: nat, hi: nat)
    requires Agree(a, b, 0, hi) && Agree(b, c, 0, lo) && lo <= hi <= |a|
    ensures Agree(a, c, 0, lo)
  {
  }

  method WildCopy8(buf: array<Byte>, d0: nat, s0: nat, e: nat)
    requires s0 + 8 <= d0 && Overrun(d0, e, 8) <= buf.Length
    modifies buf
    ensures Agree(buf[..], old(buf[..]), 0, d0)
    ensures Agree(buf[..], old(buf[..]), Overrun(d0, e, 8), buf.Length)
    ensures Periodic(buf[..], d0, Max(d0 + 8, e), d0 - s0)
  {
    hide Agree, Periodic;
    CopyWithin(buf, d0, s0, 8);
    var d, s := d0 + 8, s0 + 8;
    while d < e
      invariant d0 + 8 <= d <= Overrun(d0, e, 8) && d - s == d0 - s0
      invariant Agree(buf[..], old(buf[..]), 0, d0)
      invariant Agree(buf[..], old(buf[..]), d, buf.Length)
      invariant Periodic(buf[..], d0, d, d0 - s0)
    {
      ghost var before := buf[..];
      CopyWithin(buf, d, s, 8);
      PeriodicGrows(before, buf[..], d0, d, d + 8, d0 - s0);
      AgreeBelow(buf[..], before, old(buf[..]), d0, d);
      AgreeTrans(buf[..], before, old(buf[..]), d, d + 8, buf.Length);
      d, s := d + 8, s + 8;
    }
    Shrink(buf[..], old(buf[..]), d0, d, Max(d0 + 8, e), Overrun(d0, e, 8), d0 - s0);
  }

  // Less reach, and less of the untouched rest.
  lemma Shrink(now: Bytes, before: Bytes, lo: nat, d: nat, reach: nat, over: nat, offset: nat)
    requires Periodic(now, lo, d, offset) && reach <= d <= |now|
    requires Agree(now, before, d, |now|) && d <= over
    ensures Periodic(now, lo, reach, offset)
    ensures Agree(now, before, over, |now|)
  {
  }

  method WildCopy32(buf: array<Byte>, d0: nat, s0: nat, e: nat)
    requires s0 + 16 <= d0 && Overrun(d0, e, 32) <= buf.Length
    modifies buf
    ensures Agree(buf[..], old(buf[..]), 0, d0)
    ensures Agree(buf[..], old(buf[..]), Overrun(d0, e, 32), buf.Length)
    ensures Periodic(buf[..], d0, Max(d0 + 32, e), d0 - s0)
  {
    hide Agree, Periodic;
    CopyTwice(buf, d0, s0, 16);
    var d, s := d0 + 32, s0 + 32;
    while d < e
      invariant d0 + 32 <= d <= Overrun(d0, e, 32) && d - s == d0 - s0
      invariant Agree(buf[..], old(buf[..]), 0, d0)
      invariant Agree(buf[..], old(buf[..]), d, buf.Length)
      invariant Periodic(buf[..], d0, d, d0 - s0)
    {
      ghost var before := buf[..];
      CopyTwice(buf, d, s, 16);
      PeriodicGrows(before, buf[..], d0, d, d + 32, d0 - s0);
      AgreeBelow(buf[..], before, old(buf[..]), d0, d);
      AgreeTrans(buf[..], before, old(buf[..]), d, d + 32, buf.Length);
      d, s := d + 32, s + 32;
    }
    Shrink(buf[..], old(buf[..]), d0, d, Max(d0 + 32, e), Overrun(d0, e, 32), d0 - s0);
  }

  // Two strides, one after the other: the second may read what the first wrote.
  method CopyTwice(buf: array<Byte>, d: nat, s: nat, n: nat)
    requires s + n <= d && d + 2 * n <= buf.Length
    modifies buf
    ensures Agree(buf[..], old(buf[..]), 0, d)
    ensures Agree(buf[..], old(buf[..]), d + 2 * n, buf.Length)
    ensures Periodic(buf[..], d, d + 2 * n, d - s)
  {
    hide Agree, Periodic;
    CopyWithin(buf, d, s, n);
    ghost var before := buf[..];
    CopyWithin(buf, d + n, s + n, n);
    PeriodicGrows(before, buf[..], d, d + n, d + 2 * n, d - s);
    AgreeBelow(buf[..], before, old(buf[..]), d, d + n);
    AgreeTrans(buf[..], before, old(buf[..]), d + n, d + 2 * n, buf.Length);
  }

  // Eighteen bytes cover every match whose length fits its nibble.
  method Copy18(buf: array<Byte>, op: nat, offset: nat)
    requires 8 <= offset <= op && op + 18 <= buf.Length
    modifies buf
    ensures Agree(buf[..], old(buf[..]), 0, op)
    ensures Periodic(buf[..], op, op + 18, offset)
  {
    hide Agree, Periodic;
    var m := op - offset;
    CopyTwice(buf, op, m, 8);
    ghost var before := buf[..];
    CopyWithin(buf, op + 16, m + 16, 2);
    PeriodicGrows(before, buf[..], op, op + 16, op + 18, offset);
    AgreeBelow(buf[..], before, old(buf[..]), op, op + 16);
  }

  // Literals, copied in strides from the input: reads and writes past `e` alike.
  method WildCopyIn(buf: array<Byte>, d0: nat, src: Bytes, s0: nat, e: nat, stride: nat)
    requires stride > 0 && d0 <= e
    requires Overrun(d0, e, stride) <= buf.Length && s0 + Overrun(d0, e, stride) <= |src| + d0
    modifies buf
    ensures Agree(buf[..], old(buf[..]), 0, d0)
    ensures Agree(buf[..], old(buf[..]), Overrun(d0, e, stride), buf.Length)
    ensures buf[d0..e] == src[s0..s0 + (e - d0)]
  {
    hide Agree;
    CopyIn(buf, d0, src, s0, stride);
    var d, s := d0 + stride, s0 + stride;
    while d < e
      invariant d0 + stride <= d <= Overrun(d0, e, stride) && d - s == d0 - s0
      invariant Agree(buf[..], old(buf[..]), 0, d0)
      invariant Agree(buf[..], old(buf[..]), d, buf.Length)
      invariant buf[d0..d] == src[s0..s]
    {
      ghost var before := buf[..];
      CopyIn(buf, d, src, s, stride);
      CopiedMore(before, buf[..], d0, d, d + stride, src, s0);
      AgreeBelow(buf[..], before, old(buf[..]), d0, d);
      AgreeTrans(buf[..], before, old(buf[..]), d, d + stride, buf.Length);
      d, s := d + stride, s + stride;
    }
    CopiedLess(buf[..], old(buf[..]), d0, d, e, Overrun(d0, e, stride), src, s0);
  }

  lemma CopiedMore(before: Bytes, now: Bytes, d0: nat, d: nat, to: nat, src: Bytes, s0: nat)
    requires d0 <= d <= to <= |now| && s0 + (to - d0) <= |src|
    requires Agree(now, before, 0, d)
    requires before[d0..d] == src[s0..s0 + (d - d0)]
    requires now[d..to] == src[s0 + (d - d0)..s0 + (to - d0)]
    ensures now[d0..to] == src[s0..s0 + (to - d0)]
  {
    assert now[d0..to] == now[d0..d] + now[d..to];
    assert now[d0..d] == before[d0..d];
    assert src[s0..s0 + (to - d0)] == src[s0..s0 + (d - d0)] + src[s0 + (d - d0)..s0 + (to - d0)];
  }

  lemma CopiedLess(now: Bytes, before: Bytes, d0: nat, d: nat, e: nat, over: nat, src: Bytes, s0: nat)
    requires d0 <= e <= d <= |now| && s0 + (d - d0) <= |src| && d <= over
    requires now[d0..d] == src[s0..s0 + (d - d0)]
    requires Agree(now, before, d, |now|)
    ensures now[d0..e] == src[s0..s0 + (e - d0)]
    ensures Agree(now, before, over, |now|)
  {
    assert now[d0..e] == now[d0..d][..e - d0];
    assert src[s0..s0 + (e - d0)] == src[s0..s0 + (d - d0)][..e - d0];
  }

  // ---------------------------------------------------------------- short offsets

  const INC32: seq<int> := [0, 1, 2, 1, 0, 4, 4, 4]
  const DEC64: seq<int> := [0, 0, 0, -1, -4, 1, 2, 3]

  // The distance at which the copy goes on after its first 8 bytes: at least 8.
  function Stride(offset: nat): (r: nat)
    requires offset < 8
    ensures 8 <= r <= offset + 8
    ensures offset > 0 ==> r % offset == 0
  {
    offset + 8 - INC32[offset] + DEC64[offset]
  }

  // For an offset of 0 the decoder writes four zeros first, and copies them onto themselves.
  method FourZeros(buf: array<Byte>, op: nat)
    requires op + 4 <= buf.Length
    modifies buf
    ensures Agree(buf[..], old(buf[..]), 0, op)
    ensures Agree(buf[..], old(buf[..]), op + 4, buf.Length)
    ensures AllZero(buf[..], op, op + 4)
  {
    buf[op], buf[op + 1], buf[op + 2], buf[op + 3] := 0, 0, 0, 0;
  }

  method FourBytes(buf: array<Byte>, op: nat, offset: nat)
    requires offset <= op && op + 8 <= buf.Length
    requires offset == 0 ==> AllZero(buf[..], op, op + 4)
    modifies buf
    ensures Agree(buf[..], old(buf[..]), 0, op)
    ensures Agree(buf[..], old(buf[..]), op + 4, buf.Length)
    ensures Copied(buf[..], op, op + 4, offset)
  {
    var m := op - offset;
    buf[op] := buf[m];
    buf[op + 1] := buf[m + 1];
    buf[op + 2] := buf[m + 2];
    buf[op + 3] := buf[m + 3];
  }

  // The first 8 bytes of a match with a short offset; `m` is where the copy goes on.
  method MatchHead(buf: array<Byte>, op: nat, offset: nat) returns (m: nat)
    requires offset < 8 && offset <= op && op + 8 <= buf.Length
    requires offset == 0 ==> AllZero(buf[..], op, op + 4)
    modifies buf
    ensures Agree(buf[..], old(buf[..]), 0, op)
    ensures Agree(buf[..], old(buf[..]), op + 8, buf.Length)
    ensures Copied(buf[..], op, op + 8, offset)
    ensures m + Stride(offset) == op + 8
  {
    hide Agree, Periodic, AllZero, Copied;
    FourBytes(buf, op, offset);
    ghost var before := buf[..];
    var s := op - offset + INC32[offset];
    CopyWithin(buf, op + 4, s, 4);
    m := s - DEC64[offset];
    AgreeBelow(buf[..], before, old(buf[..]), op, op + 4);
    AgreeTrans(buf[..], before, old(buf[..]), op + 4, op + 8, buf.Length);
    HeadCopied(before, buf[..], op, offset);
  }

  lemma HeadCopied(before: Bytes, now: Bytes, op: nat, offset: nat)
    requires offset < 8 && offset <= op && op + 8 <= |now|
    requires Copied(before, op, op + 4, offset) && Agree(now, before, 0, op + 4)
    requires Periodic(now, op + 4, op + 8, 4 + offset - INC32[offset])
    ensures Copied(now, op, op + 8, offset)
  {
    hide Periodic, Agree, AllZero;
    CopiedKeeps(before, now, op, op + 4, offset);
    if offset == 0 {
      ZerosSpread(now, op, op + 4, op + 8, 4);
    } else {
      var m := if offset == 1 then 4 else if offset < 4 then 2 else if offset == 4 then 2 else 1;
      assert m * offset == 4 + offset - INC32[offset];
      PeriodTransfer(now, op, op + 4, op + 8, offset, m);
    }
  }

  lemma PeriodicKeeps(before: Bytes, now: Bytes, lo: nat, hi: nat, offset: nat)
    requires Periodic(before, lo, hi, offset) && Agree(now, before, 0, hi) && hi <= |now|
    ensures Periodic(now, lo, hi, offset)
  {
  }

  // The rest of the match, copied at the wider distance, has the match's own period.
  lemma StridePeriod(t: Bytes, op: nat, hi: nat, offset: nat)
    requires offset < 8 && offset <= op && op + 8 <= hi <= |t|
    requires Copied(t, op, op + 8, offset)
    requires Periodic(t, op + 8, hi, Stride(offset))
    ensures Copied(t, op, hi, offset)
  {
    hide Periodic, AllZero;
    if offset == 0 {
      ZerosSpread(t, op, op + 8, hi, 8);
    } else {
      var m := Stride(offset) / offset;
      assert m * offset == Stride(offset);
      PeriodTransfer(t, op, op + 8, hi, offset, m);
    }
  }

  // ---------------------------------------------------------------- copies of the fast loop

  // At least 16 bytes are written, however short the match.
  method UsingOffsetBase(buf: array<Byte>, op: nat, offset: nat, e: nat)
    requires offset <= op <= e && Overrun(op + 8, e, 8) <= buf.Length
    requires offset == 0 ==> AllZero(buf[..], op, op + 4)
    modifies buf
    ensures Agree(buf[..], old(buf[..]), 0, op)
    ensures Copied(buf[..], op, Max(op + 16, e), offset)
  {
    hide Agree, Periodic, AllZero, Copied;
    var m := op - offset;
    if offset < 8 {
      m := MatchHead(buf, op, offset);
    } else {
      CopyWithin(buf, op, m, 8);
      m := m + 8;
      IsCopied(buf[..], op, op + 8, offset);
    }
    ghost var before := buf[..];
    WildCopy8(buf, op + 8, m, e);
    AgreeBelow(buf[..], before, old(buf[..]), op, op + 8);
    WholePeriod(before, buf[..], op, Max(op + 16, e), offset, op + 8 - m);
  }

  lemma IsCopied(t: Bytes, lo: nat, hi: nat, offset: nat)
    requires offset > 0
    ensures Copied(t, lo, hi, offset) == Periodic(t, lo, hi, offset)
  {
  }

  lemma PeriodicShorter(t: Bytes, lo: nat, hi: nat, to: nat, offset: nat)
    requires Periodic(t, lo, hi, offset) && to <= hi <= |t|
    ensures Periodic(t, lo, to, offset)
  {
  }

  method FillPattern(buf: array<Byte>, op: nat, v: Bytes, e: nat)
    requires |v| == 8 && Overrun(op, e, 8) <= buf.Length
    modifies buf
    ensures Agree(buf[..], old(buf[..]), 0, op)
    ensures buf[op..op + 8] == v
    ensures Periodic(buf[..], op + 8, Max(op + 8, e), 8)
  {
    CopyIn(buf, op, v, 0, 8);
    var d := op + 8;
    while d < e
      invariant op + 8 <= d <= Overrun(op, e, 8)
      invariant Agree(buf[..], old(buf[..]), 0, op)
      invariant buf[op..op + 8] == v && buf[d - 8..d] == v
      invariant Periodic(buf[..], op + 8, d, 8)
    {
      ghost var before := buf[..];
      CopyIn(buf, d, v, 0, 8);
      PatternGrows(before, buf[..], op, d, v);
      d := d + 8;
    }
  }

  lemma PatternGrows(before: Bytes, now: Bytes, op: nat, d: nat, v: Bytes)
    requires |v| == 8 && op + 8 <= d && d + 8 <= |now|
    requires Agree(now, before, 0, d)
    requires before[op..op + 8] == v && before[d - 8..d] == v
    requires now[d..d + 8] == v
    requires Periodic(before, op + 8, d, 8)
    ensures Periodic(now, op + 8, d + 8, 8)
    ensures now[op..op + 8] == v
  {
    forall i | d <= i < d + 8
      ensures now[i] == now[i - 8]
    {
      assert now[i] == now[d..d + 8][i - d];
      assert now[i - 8] == before[d - 8..d][i - d];
    }
  }

  // Offsets 1, 2 and 4 repeat an 8-byte pattern; the others go through the table of strides.
  method UsingOffset(buf: array<Byte>, op: nat, offset: nat, e: nat)
    requires offset <= op && op + MINMATCH <= e && Overrun(op + 8, e, 8) <= buf.Length
    modifies buf
    ensures Agree(buf[..], old(buf[..]), 0, op)
    ensures Copied(buf[..], op, e, offset)
    ensures offset != 1 && offset != 2 && offset != 4 ==> Copied(buf[..], op, Max(op + 16, e), offset)
  {
    hide Copied;
    FourZeros(buf, op);
    var m := op - offset;
    var v: Bytes;
    if offset == 1 {
      var x := buf[m];
      v := seq(8, _ => x);
    } else if offset == 2 {
      v := buf[m..m + 2] + buf[m..m + 2];
      v := v + v;
    } else if offset == 4 {
      v := buf[m..m + 4] + buf[m..m + 4];
    } else {
      UsingOffsetBase(buf, op, offset, e);
      CopiedShorter(buf[..], op, Max(op + 16, e), e, offset);
      return;
    }
    ghost var before := buf[..];
    assert Pattern(v, before, op, offset);
    FillPattern(buf, op, v, e);
    PatternPeriod(before, buf[..], op, Max(op + 8, e), offset, v);
    PeriodicShorter(buf[..], op, Max(op + 8, e), e, offset);
    IsCopied(buf[..], op, e, offset);
  }

  // A match of length 4 at offset 3 overwrites the twelfth byte after its end, although only
  // 8 bytes are said to be needed there.
  method ShortMatchWritesSixteen(buf: array<Byte>, op: nat)
    requires 3 <= op && op + 16 <= buf.Length && buf[op + 15] != buf[op - 3]
    modifies buf
    ensures buf[op + 15] == old(buf[op - 3]) != old(buf[op + 15])
  {
    UsingOffset(buf, op, 3, op + MINMATCH);
    PeriodSteps(buf[..], op, op + 16, 3, op + 15, 6);
  }

  ghost predicate Pattern(v: Bytes, before: Bytes, op: nat, offset: nat) {
    && |v| == 8 && offset <= op <= |before|
    && (forall k :: 0 <= k < 8 && k < offset ==> v[k] == before[op - offset + k])
    && (forall j, k :: 0 <= j < k < 8 && k == j + offset ==> v[j] == v[k])
  }

  lemma PatternAt(v: Bytes, before: Bytes, op: nat, offset: nat, k: nat)
    requires Pattern(v, before, op, offset) && 1 <= offset && k < 8
    ensures v[k] == if k < offset then before[op - offset + k] else v[k - offset]
  {
  }

  lemma PatternPoint(before: Bytes, now: Bytes, op: nat, i: nat, offset: nat, v: Bytes)
    requires 1 <= offset <= op <= i < op + 8 <= |now| && |v| == 8
    requires Agree(now, before, 0, op)
    requires Pattern(v, before, op, offset)
    requires now[op..op + 8] == v
    ensures now[i] == now[i - offset]
  {
    hide Pattern;
    var k := i - op;
    PatternAt(v, before, op, offset, k);
    assert now[i] == now[op..op + 8][k];
    if k >= offset {
      assert now[i - offset] == now[op..op + 8][k - offset];
    }
  }

  lemma PatternPeriod(before: Bytes, now: Bytes, op: nat, hi: nat, offset: nat, v: Bytes)
    requires offset == 1 || offset == 2 || offset == 4
    requires offset <= op && op + 8 <= hi <= |now|
    requires Agree(now, before, 0, op)
    requires Pattern(v, before, op, offset)
    requires now[op..op + 8] == v
    requires Periodic(now, op + 8, hi, 8)
    ensures Periodic(now, op, hi, offset)
  {
    assert Periodic(now, op, op + 8, offset) by {
      forall i | op <= i < op + 8
        ensures now[i] == now[i - offset]
      {
        PatternPoint(before, now, op, i, offset, v);
      }
    }
    PeriodTransfer(now, op, op + 8, hi, offset, 8 / offset);
  }

  // ---------------------------------------------------------------- the copy of the safe loop

  // The last bytes before the end, one at a time.
  method ByteTail(buf: array<Byte>, op0: nat, m0: nat, e: nat)
    requires m0 < op0 && e <= buf.Length
    modifies buf
    ensures Agree(buf[..], old(buf[..]), 0, op0)
    ensures Periodic(buf[..], op0, e, op0 - m0)
  {
    var op, m := op0, m0;
    while op < e
      invariant op0 <= op <= Max(op0, e) && op - m == op0 - m0
      invariant Agree(buf[..], old(buf[..]), 0, op0)
      invariant Periodic(buf[..], op0, op, op0 - m0)
    {
      ghost var before := buf[..];
      buf[op] := buf[m];
      PeriodicKeeps(before, buf[..], op0, op, op0 - m0);
      op, m := op + 1, m + 1;
    }
  }

  // From the second stride to `e`, near the end of the buffer.
  method NearEnd(buf: array<Byte>, op: nat, m: nat, e: nat)
    requires m + 8 <= op && e + LASTLITERALS <= buf.Length && buf.Length >= 7
    requires op <= buf.Length
    modifies buf
    ensures Agree(buf[..], old(buf[..]), 0, op)
    ensures Periodic(buf[..], op, e, op - m)
  {
    hide Agree, Periodic;
    var limit := buf.Length - 7;
    if op < limit {
      WildCopy8(buf, op, m, limit);
      ghost var before := buf[..];
      PeriodicShorter(before, op, Max(op + 8, limit), limit, op - m);
      ByteTail(buf, limit, m + (limit - op), e);
      AgreeBelow(buf[..], before, old(buf[..]), op, limit);
      TailPeriod(before, buf[..], op, limit, e, op - m);
    } else {
      ByteTail(buf, op, m, e);
    }
  }

  lemma TailPeriod(before: Bytes, now: Bytes, lo: nat, mid: nat, e: nat, offset: nat)
    requires lo <= mid && Max(mid, e) <= |now|
    requires Periodic(before, lo, mid, offset) && Agree(now, before, 0, mid)
    requires Periodic(now, mid, e, offset)
    ensures Periodic(now, lo, e, offset)
  {
  }

  // The second stride and what follows, far from the end.
  method FarFromEnd(buf: array<Byte>, op: nat, m: nat, e: nat, length: nat)
    requires m + 8 <= op && op + 8 <= buf.Length && e + MFLIMIT <= buf.Length && e + 8 == op + length
    modifies buf
    ensures Agree(buf[..], old(buf[..]), 0, op)
    ensures Periodic(buf[..], op, e, op - m)
  {
    hide Agree, Periodic;
    CopyWithin(buf, op, m, 8);
    if length > 16 {
      ghost var before := buf[..];
      WildCopy8(buf, op + 8, m + 8, e);
      AgreeBelow(buf[..], before, old(buf[..]), op, op + 8);
      PeriodicGrows(before, buf[..], op, op + 8, Max(op + 16, e), op - m);
      PeriodicShorter(buf[..], op, Max(op + 16, e), e, op - m);
    } else {
      PeriodicShorter(buf[..], op, op + 8, e, op - m);
    }
  }

  // A match in the safe loop: refused when it would reach into the last 5 bytes of the buffer.
  method SafeCopy(buf: array<Byte>, op: nat, offset: nat, length: nat) returns (ok: bool)
    requires offset <= op && op + MFLIMIT <= buf.Length && length >= MINMATCH
    modifies buf
    ensures ok == (op + length + LASTLITERALS <= buf.Length)
    ensures Agree(buf[..], old(buf[..]), 0, op)
    ensures ok ==> Copied(buf[..], op, op + length, offset)
  {
    hide Agree, Periodic, AllZero, Copied;
    var e := op + length;
    var m := op - offset;
    if offset < 8 {
      FourZeros(buf, op);
      ghost var zeroed := buf[..];
      m := MatchHead(buf, op, offset);
      AgreeBelow(buf[..], zeroed, old(buf[..]), op, op);
    } else {
      CopyWithin(buf, op, m, 8);
      m := m + 8;
      IsCopied(buf[..], op, op + 8, offset);
    }
    ghost var before := buf[..];
    if e > buf.Length - MFLIMIT {
      if e > buf.Length - LASTLITERALS {
        return false;
      }
      NearEnd(buf, op + 8, m, e);
    } else {
      FarFromEnd(buf, op + 8, m, e, length);
    }
    ok := true;
    AgreeBelow(buf[..], before, old(buf[..]), op, op + 8);
    WholePeriod(before, buf[..], op, e, offset, op + 8 - m);
  }

  // The first 8 bytes and the rest, copied at distance `d`.
  lemma WholePeriod(before: Bytes, now: Bytes, op: nat, e: nat, offset: nat, d: nat)
    requires offset <= op <= e <= |now| && op + 8 <= |now|
    requires d == if offset < 8 then Stride(offset) else offset
    requires Copied(before, op, op + 8, offset) && Agree(now, before, 0, op + 8)
    requires Periodic(now, op + 8, e, d)
    ensures Copied(now, op, e, offset)
  {
    hide Periodic, Agree, AllZero, Copied;
    CopiedKeeps(before, now, op, op + 8, offset);
    if e <= op + 8 {
      CopiedShorter(now, op, op + 8, e, offset);
    } else if offset < 8 {
      StridePeriod(now, op, e, offset);
    } else {
      IsCopied(now, op, op + 8, offset);
      PeriodicJoin(now, op, op + 8, e, offset);
      IsCopied(now, op, e, offset);
    }
  }
}
