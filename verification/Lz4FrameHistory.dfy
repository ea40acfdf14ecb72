/**
  * The context of the streaming LZ4 frame decoder and the history it keeps for linked blocks.  The
  * last 64 KB delivered may stand in the caller's buffer, in the context's own output buffer in
  * front of a block still being flushed, or move from one to the other; whenever a block is to be
  * decoded they are the end of the dictionary.
  *
  * The context is the record the library keeps between calls; its internal buffers are sequences
  * replaced on write.  The output buffer is the caller's array.
  */
module Lz4FrameHistory {
  import opened Basics
  import opened ByteSeq
  import opened Lz4Format
  import opened Lz4FrameFormat

  datatype Stage =
    | GetFrameHeader | StoreFrameHeader
    | Init
    | GetBlockHeader | StoreBlockHeader
    | CopyDirect | GetBlockChecksum
    | GetCBlock | StoreCBlock
    | FlushOut
    | GetSuffix | StoreSuffix
    | GetSFrameSize | StoreSFrameSize | SkipSkippable

  // Where the history lies: nowhere yet, at the start of the output buffer of the context, or in
  // a buffer of the caller.
  datatype Dict = NoDict | InTmp | InDst(buf: array<Byte>, off: nat)

  datatype Ctx = Ctx(
    stage: Stage, info: Info, remaining: nat, maxBlock: nat, maxBuffer: nat,
    header: Bytes, tmpIn: Bytes, tmpInSize: nat, tmpInTarget: nat,
    tmpOut: Bytes, dict: Dict, dictSize: nat,
    outPos: nat, outSize: nat, outStart: nat,
    content: Bytes, fed: Bytes)

  // `buf` with the bytes `x` written at `at`.
  function Put(buf: Bytes, at: nat, x: Bytes): (r: Bytes)
    requires at + |x| <= |buf|
    ensures |r| == |buf|
  {
    buf[..at] + x + buf[at + |x|..]
  }

  lemma PutSlices(buf: Bytes, at: nat, x: Bytes)
    requires at + |x| <= |buf|
    ensures Put(buf, at, x)[at..at + |x|] == x
    ensures Put(buf, at, x)[..at] == buf[..at] && Put(buf, at, x)[at + |x|..] == buf[at + |x|..]
    ensures Put(buf, at, x)[..at + |x|] == buf[..at] + x
  {
  }

  // ---------------------------------------------------------------- the history

  function DictBytes(c: Ctx): Bytes
    requires c.dict.InDst? ==> c.dict.off + c.dictSize <= c.dict.buf.Length
    requires c.dict.InTmp? ==> c.dictSize <= |c.tmpOut|
    reads if c.dict.InDst? then {c.dict.buf} else {}
  {
    match c.dict
    case NoDict => []
    case InTmp => c.tmpOut[..c.dictSize]
    case InDst(buf, off) => buf[off..off + c.dictSize]
  }

  function Window(h: Bytes): nat {
    Min(|h|, KB64)
  }

  // A history in the caller's buffer is the exact end of what was delivered, and long enough.
  ghost predicate Exact(d: Bytes, h: Bytes) {
    Window(h) <= |d| <= |h| && d == h[|h| - |d|..]
  }

  // Between blocks: the dictionary ends in the last 64 KB delivered.
  ghost predicate Settled(c: Ctx, h: Bytes)
    reads if c.dict.InDst? then {c.dict.buf} else {}
  {
    match c.dict
    case NoDict => c.dictSize == 0 && h == []
    case InTmp =>
      c.dictSize <= |c.tmpOut| && Min(c.dictSize, KB64) == Window(h) && Tail(c.tmpOut[..c.dictSize], h)
    case InDst(buf, off) => off + c.dictSize <= buf.Length && Exact(buf[off..off + c.dictSize], h)
  }

  // The decoded block waiting in tmpOut.
  ghost predicate BlockIn(c: Ctx, h: Bytes) {
    && c.outPos + c.outSize <= |c.tmpOut| && c.outStart <= c.outSize && c.outStart <= |h|
    && c.tmpOut[c.outPos..c.outPos + c.outStart] == h[|h| - c.outStart..]
  }

  ghost function Unflushed(c: Ctx): Bytes
    requires c.outPos + c.outSize <= |c.tmpOut| && c.outStart <= c.outSize
  {
    c.tmpOut[c.outPos + c.outStart..c.outPos + c.outSize]
  }

  // While a block is being flushed from tmpOut: there is room for the history in front of it, and
  // a dictionary in tmpOut will end in the last 64 KB once the block is out.
  ghost predicate Flushing(c: Ctx, h: Bytes)
    reads if c.dict.InDst? then {c.dict.buf} else {}
  {
    DictIn(c) && FlushingWith(c, h, DictBytes(c))
  }

  ghost predicate DictIn(c: Ctx) {
    && (c.dict.InDst? ==> c.dict.off + c.dictSize <= c.dict.buf.Length)
    && (c.dict.InTmp? ==> c.dictSize <= |c.tmpOut|)
  }

  // The same, when the bytes of a dictionary in the caller's buffer are given.
  ghost predicate FlushingWith(c: Ctx, h: Bytes, region: Bytes) {
    && BlockIn(c, h) && Min(c.outPos, KB64) == Min(|h| - c.outStart, KB64)
    && match c.dict
       case NoDict => c.dictSize == 0 && h == []
       case InTmp => c.dictSize == c.outPos + c.outStart && Tail(c.tmpOut[..c.outPos + c.outSize], h + Unflushed(c))
       case InDst(buf, off) => Exact(region, h)
  }

  lemma ExactIsTail(d: Bytes, h: Bytes)
    requires Exact(d, h)
    ensures Tail(d, h)
  {
    assert d[|d| - Window(h)..] == h[|h| - Window(h)..];
  }

  lemma ExactGrows(d: Bytes, h: Bytes, x: Bytes)
    requires Exact(d, h)
    ensures Exact(d + x, h + x)
  {
  }

  // Every block is decoded with a dictionary that ends in the most recent 64 KB, and that
  // reaches back no further than the history does when that is shorter.
  lemma SettledTail(c: Ctx, h: Bytes)
    requires Settled(c, h)
    ensures Tail(DictBytes(c), h) && Tail(h, DictBytes(c))
  {
    hide Tail, Exact;
    match c.dict
    case NoDict => EmptyTail();
    case InTmp => TailBack(DictBytes(c), h);
    case InDst(_, _) =>
      ExactIsTail(DictBytes(c), h);
      ExactWindow(DictBytes(c), h);
      TailBack(DictBytes(c), h);
  }

  lemma ExactWindow(d: Bytes, h: Bytes)
    requires Exact(d, h)
    ensures Min(|d|, KB64) == Window(h)
  {
  }

  lemma TailBack(d: Bytes, h: Bytes)
    requires Tail(d, h) && Min(|d|, KB64) == Window(h)
    ensures Tail(h, d)
  {
  }

  lemma SettledInTmp(c: Ctx, h: Bytes)
    requires c.dict.InTmp?
    ensures Settled(c, h) <==>
      c.dictSize <= |c.tmpOut| && Min(c.dictSize, KB64) == Window(h) && Tail(c.tmpOut[..c.dictSize], h)
  {
  }

  lemma SettledInDst(c: Ctx, h: Bytes)
    requires c.dict.InDst?
    ensures Settled(c, h) <==>
      c.dict.off + c.dictSize <= c.dict.buf.Length && Exact(c.dict.buf[c.dict.off..c.dict.off + c.dictSize], h)
  {
  }

  // Writing at `d` and above leaves the dictionary alone.
  ghost predicate DictSafe(c: Ctx, dst: array<Byte>, d: nat) {
    c.dict.InDst? && c.dict.buf == dst ==> c.dict.off + c.dictSize <= d
  }

  // The history ends right in front of dst[d..], or there is none.
  predicate Adjacent(c: Ctx, dst: array<Byte>, d: nat) {
    c.dictSize == 0 || (c.dict.InDst? && c.dict.buf == dst && c.dict.off + c.dictSize == d)
  }

  // What this call has delivered: the end of the history stands in dst[d0..d].
  ghost predicate Recent(dst: array<Byte>, d0: nat, d: nat, h: Bytes)
    reads dst
  {
    d0 <= d <= dst.Length && d - d0 <= |h| && dst[d0..d] == h[|h| - (d - d0)..]
  }

  lemma RecentGrows(a: Bytes, h: Bytes, x: Bytes)
    requires |a| <= |h| && a == h[|h| - |a|..]
    ensures a + x == (h + x)[|h + x| - |a + x|..]
  {
  }

  // The history after `n` more bytes, from dst[d..], were delivered.
  method UpdateDict(c: Ctx, dst: array<Byte>, d: nat, n: nat, d0: nat, withinTmp: bool, ghost h: Bytes) returns (r: Ctx)
    requires d0 <= d && d + n <= dst.Length && Recent(dst, d0, d, h) && DictSafe(c, dst, d)
    requires |c.tmpOut| >= KB128 + KB64 && |c.tmpOut| == c.maxBuffer
    requires if withinTmp
      then Flushing(c, h) && c.outStart + n <= c.outSize && dst[d..d + n] == c.tmpOut[c.outPos + c.outStart..c.outPos + c.outStart + n]
      else Settled(c, h)
    ensures r == c.(tmpOut := r.tmpOut, dict := r.dict, dictSize := r.dictSize) && |r.tmpOut| == |c.tmpOut|
    ensures withinTmp ==> Flushing(r.(outStart := c.outStart + n), h + dst[d..d + n])
    ensures withinTmp ==> r.tmpOut[c.outPos..c.outPos + c.outSize] == c.tmpOut[c.outPos..c.outPos + c.outSize]
    ensures !withinTmp ==> Settled(r, h + dst[d..d + n])
    ensures DictSafe(r, dst, d + n) && (Adjacent(c, dst, d) ==> Adjacent(r, dst, d + n))
  {
    hide Settled, Flushing, Recent;
    if Adjacent(c, dst, d) {
      var off := if c.dictSize == 0 then d else c.dict.off;
      r := c.(dict := InDst(dst, off), dictSize := c.dictSize + n);
      Continued(c, r, dst, d, n, withinTmp, h);
      return;
    }
    if d - d0 + n >= KB64 {
      r := c.(dict := InDst(dst, d0), dictSize := d - d0 + n);
      LongEnough(c, r, dst, d, n, d0, withinTmp, h);
      return;
    }
    HasDict(c, h, withinTmp);
    if withinTmp {
      if c.dict.InTmp? {
        r := c.(dictSize := c.dictSize + n);
        StillTmp(c, r, h, n);
      } else {
        r := IntoTmp(c, h, n);
      }
    } else if c.dict.InTmp? {
      r := CompleteTmp(c, dst[d..d + n], h);
    } else {
      r := JoinTmp(c, dst[d..d + n], h);
    }
  }

  ghost predicate Before(c: Ctx, dst: array<Byte>, d: nat, n: nat, withinTmp: bool, h: Bytes)
    reads dst, if c.dict.InDst? then {c.dict.buf} else {}
  {
    && d + n <= dst.Length
    && if withinTmp
       then Flushing(c, h) && c.outStart + n <= c.outSize && dst[d..d + n] == c.tmpOut[c.outPos + c.outStart..c.outPos + c.outStart + n]
       else Settled(c, h)
  }

  ghost predicate Then(c: Ctx, r: Ctx, n: nat, withinTmp: bool, h: Bytes)
    reads if r.dict.InDst? then {r.dict.buf} else {}
  {
    if withinTmp then Flushing(r.(outStart := c.outStart + n), h) else Settled(r, h)
  }

  // The new bytes in the caller's buffer end an exact history.
  lemma ExactThen(c: Ctx, r: Ctx, dst: array<Byte>, d: nat, n: nat, withinTmp: bool, h: Bytes)
    requires Before(c, dst, d, n, withinTmp, h)
    requires r == c.(dict := r.dict, dictSize := r.dictSize) && r.dict.InDst?
    requires r.dict.off + r.dictSize <= r.dict.buf.Length
    requires Exact(r.dict.buf[r.dict.off..r.dict.off + r.dictSize], h + dst[d..d + n])
    ensures Then(c, r, n, withinTmp, h + dst[d..d + n])
  {
    hide Exact, Tail;
    if withinTmp {
      Advance(c, r, h, n, dst[d..d + n]);
    }
  }

  // The dictionary goes on where the new bytes were written.
  lemma Continued(c: Ctx, r: Ctx, dst: array<Byte>, d: nat, n: nat, withinTmp: bool, h: Bytes)
    requires Before(c, dst, d, n, withinTmp, h)
    requires r.dict.InDst? && r.dict.buf == dst && r == c.(dict := r.dict, dictSize := c.dictSize + n)
    requires r.dict.off + c.dictSize == d
    requires c.dictSize == 0 || c.dict == r.dict
    ensures Then(c, r, n, withinTmp, h + dst[d..d + n])
  {
    hide Tail, Exact, Settled, Flushing, Then;
    var x, was := dst[d..d + n], dst[r.dict.off..d];
    assert dst[r.dict.off..d + n] == was + x;
    if c.dictSize == 0 {
      NothingYet(c, h, withinTmp);
      assert was == h;
      ExactAll(h);
    } else {
      ExactBefore(c, h, withinTmp);
    }
    ExactGrows(was, h, x);
    ExactThen(c, r, dst, d, n, withinTmp, h);
  }

  lemma ExactAll(h: Bytes)
    ensures Exact(h, h)
  {
  }

  lemma ExactBefore(c: Ctx, h: Bytes, withinTmp: bool)
    requires c.dict.InDst?
    requires if withinTmp then Flushing(c, h) else Settled(c, h)
    ensures c.dict.off + c.dictSize <= c.dict.buf.Length && Exact(c.dict.buf[c.dict.off..c.dict.off + c.dictSize], h)
  {
    hide Exact, Tail, BlockIn;
  }

  lemma NothingYet(c: Ctx, h: Bytes, withinTmp: bool)
    requires c.dictSize == 0
    requires if withinTmp then Flushing(c, h) else Settled(c, h)
    ensures h == []
  {
  }

  lemma HasDict(c: Ctx, h: Bytes, withinTmp: bool)
    requires c.dictSize > 0
    requires if withinTmp then Flushing(c, h) else Settled(c, h)
    ensures !c.dict.NoDict?
  {
  }

  // The output of this call alone is history enough.
  lemma LongEnough(c: Ctx, r: Ctx, dst: array<Byte>, d: nat, n: nat, d0: nat, withinTmp: bool, h: Bytes)
    requires Before(c, dst, d, n, withinTmp, h) && Recent(dst, d0, d, h) && d - d0 + n >= KB64
    requires r == c.(dict := InDst(dst, d0), dictSize := d - d0 + n)
    ensures Then(c, r, n, withinTmp, h + dst[d..d + n])
  {
    hide Settled, Flushing, Then, Tail;
    var x := dst[d..d + n];
    RecentGrows(dst[d0..d], h, x);
    assert dst[d0..d + n] == dst[d0..d] + x;
    ExactThen(c, r, dst, d, n, withinTmp, h);
  }

  lemma StillTmp(c: Ctx, r: Ctx, h: Bytes, n: nat)
    requires Flushing(c, h) && c.dict.InTmp? && c.outStart + n <= c.outSize && r == c.(dictSize := c.dictSize + n)
    ensures Flushing(r.(outStart := c.outStart + n), h + c.tmpOut[c.outPos + c.outStart..c.outPos + c.outStart + n])
  {
    hide Tail;
    var x := c.tmpOut[c.outPos + c.outStart..c.outPos + c.outStart + n];
    Advance(c, r, h, n, x);
  }

  lemma Associates(a: Bytes, b: Bytes, c: Bytes)
    ensures a + (b + c) == a + b + c
  {
  }

  lemma AdvanceBlock(t: Bytes, pos: nat, start: nat, n: nat, h: Bytes, x: Bytes)
    requires pos + start + n <= |t| && start <= |h| && t[pos..pos + start] == h[|h| - start..]
    requires x == t[pos + start..pos + start + n]
    ensures t[pos..pos + (start + n)] == (h + x)[|h + x| - (start + n)..]
  {
    JoinedSlices(t, pos, pos + start, pos + start + n);
    RecentGrows(t[pos..pos + start], h, x);
  }

  // Moving outStart past delivered bytes.
  lemma Advance(c: Ctx, r: Ctx, h: Bytes, n: nat, x: Bytes)
    requires BlockIn(c, h) && c.outStart + n <= c.outSize && r == c.(dict := r.dict, dictSize := r.dictSize)
    requires x == c.tmpOut[c.outPos + c.outStart..c.outPos + c.outStart + n]
    ensures BlockIn(r.(outStart := c.outStart + n), h + x)
    ensures |h + x| - (c.outStart + n) == |h| - c.outStart
    ensures h + Unflushed(c) == h + x + Unflushed(r.(outStart := c.outStart + n))
  {
    AdvanceBlock(c.tmpOut, c.outPos, c.outStart, n, h, x);
    JoinedSlices(c.tmpOut, c.outPos + c.outStart, c.outPos + c.outStart + n, c.outPos + c.outSize);
    Associates(h, x, c.tmpOut[c.outPos + c.outStart + n..c.outPos + c.outSize]);
  }

  // ---------------------------------------------------------------- moving the history

  lemma TailIs(d: Bytes, h: Bytes)
    ensures Tail(d, h) <==> Window(h) <= |d| && d[|d| - Window(h)..] == h[|h| - Window(h)..]
  {
  }

  // Shorter ends of the two agree as well.
  lemma TailEnds(d: Bytes, h: Bytes, r: nat)
    requires Tail(d, h) && r <= Window(h)
    ensures r <= |d| && d[|d| - r..] == h[|h| - r..]
  {
    hide Tail;
    TailIs(d, h);
    EndOfEnd(d, Window(h), r);
    EndOfEnd(h, Window(h), r);
  }

  lemma TailJoin(e: Bytes, h: Bytes, x: Bytes, w: nat)
    requires w == Window(h + x) <= |e| + |x|
    requires |x| < w ==> e[|e| - (w - |x|)..] == h[|h| - (w - |x|)..]
    ensures Tail(e + x, h + x)
  {
    hide Tail;
    TailIs(e + x, h + x);
    EndOfJoin(e, x, w);
    EndOfJoin(h, x, w);
  }

  // The last `p` bytes of a good dictionary, with new bytes behind, when that is enough.
  lemma TailCut(d: Bytes, h: Bytes, x: Bytes, p: nat)
    requires Tail(d, h) && p <= |d| && p + |x| >= Window(h + x)
    ensures Tail(d[|d| - p..] + x, h + x)
  {
    hide Tail;
    var e, w := d[|d| - p..], Window(h + x);
    if |x| < w {
      EndOfEnd(d, p, w - |x|);
      TailEnds(d, h, w - |x|);
    }
    TailJoin(e, h, x, w);
  }

  // A piece of history in front of a block, when the two are enough.
  lemma TailFront(front: Bytes, piece: Bytes, y: Bytes, g: Bytes)
    requires |piece| <= |g| && piece == g[|g| - |piece|..] && |piece| + |y| >= Window(g + y)
    ensures Tail(front + piece + y, g + y)
  {
    hide Tail;
    var w := Window(g + y);
    if |y| < w {
      EndOfJoin(front, piece, w - |y|);
      EndOfEnd(g, |piece|, w - |y|);
    }
    TailJoin(front + piece, g, y, w);
  }

  // Copy the history from the caller's buffer in front of the block in tmpOut.
  method IntoTmp(c: Ctx, ghost h: Bytes, n: nat) returns (r: Ctx)
    requires Flushing(c, h) && c.dict.InDst? && c.outStart + n <= c.outSize
    ensures r == c.(tmpOut := r.tmpOut, dict := InTmp, dictSize := c.outPos + c.outStart + n) && |r.tmpOut| == |c.tmpOut|
    ensures r.tmpOut[c.outPos..c.outPos + c.outSize] == c.tmpOut[c.outPos..c.outPos + c.outSize]
    ensures Flushing(r.(outStart := c.outStart + n), h + c.tmpOut[c.outPos + c.outStart..c.outPos + c.outStart + n])
  {
    hide Flushing, Exact;
    FlushRoom(c, h);
    var copySize: nat := if c.outSize > KB64 then 0 else KB64 - c.outSize;
    if copySize > c.outPos {
      copySize := c.outPos;
    }
    var piece: Bytes := [];
    if copySize > 0 {
      EnoughHistory(c, h, copySize);
      piece := OldHistory(c, copySize, h);
    }
    r := c.(tmpOut := Put(c.tmpOut, c.outPos - copySize, piece), dict := InTmp, dictSize := c.outPos + c.outStart + n);
    IntoTmpRight(c, r, h, n, piece);
  }

  // `size` bytes of the dictionary, ending where the block in tmpOut begins.
  method OldHistory(c: Ctx, size: nat, ghost h: Bytes) returns (piece: Bytes)
    requires c.dict.InDst? && c.dict.off + c.dictSize <= c.dict.buf.Length && c.outStart + size <= c.dictSize
    requires Exact(c.dict.buf[c.dict.off..c.dict.off + c.dictSize], h)
    ensures |piece| == size && c.outStart + size <= |h|
    ensures piece == h[..|h| - c.outStart][|h| - c.outStart - size..]
  {
    var oldDictEnd := c.dict.off + c.dictSize - c.outStart;
    piece := c.dict.buf[oldDictEnd - size..oldDictEnd];
    ghost var t := c.dict.buf[..];
    ghost var d := t[c.dict.off..c.dict.off + c.dictSize];
    assert d == c.dict.buf[c.dict.off..c.dict.off + c.dictSize];
    SliceOfSlice(t, c.dict.off, c.dictSize, c.dictSize - c.outStart - size, c.dictSize - c.outStart);
    assert piece == t[oldDictEnd - size..oldDictEnd];
    PieceIs(d, h, c.outStart, size, piece);
  }

  lemma IntoTmpRight(c: Ctx, r: Ctx, h: Bytes, n: nat, piece: Bytes)
    requires Flushing(c, h) && c.outStart + n <= c.outSize
    requires |piece| <= c.outPos && |piece| == if c.outSize > KB64 then 0 else Min(KB64 - c.outSize, c.outPos)
    requires |piece| > 0 ==> |piece| <= |h| - c.outStart && piece == h[..|h| - c.outStart][|h| - c.outStart - |piece|..]
    requires r == c.(tmpOut := Put(c.tmpOut, c.outPos - |piece|, piece), dict := InTmp, dictSize := c.outPos + c.outStart + n)
    ensures r.tmpOut[c.outPos..c.outPos + c.outSize] == c.tmpOut[c.outPos..c.outPos + c.outSize]
    ensures Flushing(r.(outStart := c.outStart + n), h + c.tmpOut[c.outPos + c.outStart..c.outPos + c.outStart + n])
  {
    hide Tail, Put, Flushing, BlockIn, Unflushed;
    FlushRoom(c, h);
    PutSlices(c.tmpOut, c.outPos - |piece|, piece);
    BlockKept(c, r, h);
    SliceKept(c.tmpOut, r.tmpOut, c.outPos, c.outPos + c.outStart, c.outPos + c.outStart + n);
    assert |piece| == 0 ==> piece == h[..|h| - c.outStart][|h| - c.outStart - |piece|..];
    FrontTail(c, r, h, piece);
    var q := r.(dictSize := r.outPos + r.outStart);
    BlockKept(c, q, h);
    FlushingTmp(q, h);
    StillTmp(q, r, h, n);
  }

  lemma FlushingTmp(c: Ctx, h: Bytes)
    requires BlockIn(c, h) && Min(c.outPos, KB64) == Min(|h| - c.outStart, KB64)
    requires c.dict.InTmp? && c.dictSize == c.outPos + c.outStart && Tail(c.tmpOut[..c.outPos + c.outSize], h + Unflushed(c))
    ensures Flushing(c, h)
  {
    hide Tail;
  }

  lemma FlushRoom(c: Ctx, h: Bytes)
    requires Flushing(c, h)
    ensures c.outPos + c.outSize <= |c.tmpOut| && c.outStart <= c.outSize && c.outStart <= |h|
    ensures BlockIn(c, h) && Min(c.outPos, KB64) == Min(|h| - c.outStart, KB64)
    ensures c.dict.InDst? ==> c.dict.off + c.dictSize <= c.dict.buf.Length
    ensures c.dict.InDst? ==> Exact(c.dict.buf[c.dict.off..c.dict.off + c.dictSize], h)
  {
  }

  lemma EnoughHistory(c: Ctx, h: Bytes, copySize: nat)
    requires Flushing(c, h) && c.dict.InDst? && copySize <= c.outPos && copySize + c.outSize <= KB64
    ensures copySize <= |h| - c.outStart && c.outStart + copySize <= c.dictSize
  {
  }

  // The bytes before the flushed part of the block, read from the dictionary.
  lemma PieceIs(d: Bytes, h: Bytes, start: nat, size: nat, piece: Bytes)
    requires Exact(d, h) && start + size <= |d| && piece == d[|d| - start - size..|d| - start]
    ensures piece == h[..|h| - start][|h| - start - size..]
  {
  }

  lemma SliceKept(t: Bytes, u: Bytes, p: nat, a: nat, b: nat)
    requires |t| == |u| && p <= a <= b <= |t| && u[p..] == t[p..]
    ensures u[a..b] == t[a..b]
  {
    forall i | a <= i < b
      ensures u[i] == t[i]
    {
      assert u[i] == u[p..][i - p] && t[i] == t[p..][i - p];
    }
  }

  lemma BlockKept(c: Ctx, r: Ctx, h: Bytes)
    requires BlockIn(c, h) && |r.tmpOut| == |c.tmpOut| && r.tmpOut[c.outPos..] == c.tmpOut[c.outPos..]
    requires r == c.(tmpOut := r.tmpOut, dict := r.dict, dictSize := r.dictSize)
    ensures BlockIn(r, h) && Unflushed(r) == Unflushed(c)
    ensures r.tmpOut[c.outPos..c.outPos + c.outSize] == c.tmpOut[c.outPos..c.outPos + c.outSize]
  {
    SliceKept(c.tmpOut, r.tmpOut, c.outPos, c.outPos, c.outPos + c.outSize);
    SliceKept(c.tmpOut, r.tmpOut, c.outPos, c.outPos, c.outPos + c.outStart);
    SliceKept(c.tmpOut, r.tmpOut, c.outPos, c.outPos + c.outStart, c.outPos + c.outSize);
  }

  // The history and what is left of the block: what came before the block, and the block.
  lemma WholeBlock(r: Ctx, h: Bytes, g: Bytes, y: Bytes)
    requires BlockIn(r, h) && g == h[..|h| - r.outStart] && y == r.tmpOut[r.outPos..r.outPos + r.outSize]
    ensures h + Unflushed(r) == g + y
  {
    var done := r.tmpOut[r.outPos..r.outPos + r.outStart];
    assert y == done + Unflushed(r);
    assert h == g + done;
  }

  lemma FrontTail(c: Ctx, r: Ctx, h: Bytes, piece: Bytes)
    requires BlockIn(c, h) && BlockIn(r, h) && Unflushed(r) == Unflushed(c)
    requires r.outPos == c.outPos && r.outSize == c.outSize && r.outStart == c.outStart
    requires Min(c.outPos, KB64) == Min(|h| - c.outStart, KB64)
    requires |piece| <= c.outPos && |piece| == if c.outSize > KB64 then 0 else Min(KB64 - c.outSize, c.outPos)
    requires piece == h[..|h| - c.outStart][|h| - c.outStart - |piece|..]
    requires r.tmpOut[..c.outPos] == c.tmpOut[..c.outPos - |piece|] + piece
    ensures Tail(r.tmpOut[..r.outPos + r.outSize], h + Unflushed(r))
  {
    hide Tail;
    var g := h[..|h| - c.outStart];
    var y := r.tmpOut[r.outPos..r.outPos + r.outSize];
    WholeBlock(r, h, g, y);
    assert r.tmpOut[..r.outPos + r.outSize] == r.tmpOut[..c.outPos] + y;
    TailFront(c.tmpOut[..c.outPos - |piece|], piece, y, g);
  }

  // Delivered bytes appended to a dictionary in tmpOut, which is cut to 64 KB when it is full.
  method CompleteTmp(c: Ctx, x: Bytes, ghost h: Bytes) returns (r: Ctx)
    requires Settled(c, h) && c.dict.InTmp? && |x| < KB64 && |c.tmpOut| >= KB128 + KB64 && |c.tmpOut| == c.maxBuffer
    ensures r == c.(tmpOut := r.tmpOut, dictSize := r.dictSize) && |r.tmpOut| == |c.tmpOut|
    ensures Settled(r, h + x)
  {
    hide Tail, Settled, Put;
    SettledInTmp(c, h);
    var t, size := c.tmpOut, c.dictSize;
    ghost var cut := size;
    if size + |x| > c.maxBuffer {
      var preserveSize := KB64 - |x|;
      cut := preserveSize;
      var piece := t[size - preserveSize..size];
      PutSlices(t, 0, piece);
      t := Put(t, 0, piece);
      size := preserveSize;
    }
    assert t[..size] == c.tmpOut[..c.dictSize][c.dictSize - cut..];
    TailCut(c.tmpOut[..c.dictSize], h, x, cut);
    PutSlices(t, size, x);
    r := c.(tmpOut := Put(t, size, x), dictSize := size + |x|);
    SettledInTmp(r, h + x);
  }

  lemma EndOfRegion(t: Bytes, off: nat, end: nat, n: nat)
    requires off <= end <= |t| && n <= end - off
    ensures t[off..end][end - off - n..] == t[end - n..end]
  {
    SliceOfSlice(t, off, end - off, end - off - n, end - off);
  }

  // The end of a dictionary in the caller's buffer, then the delivered bytes, in tmpOut.
  method JoinTmp(c: Ctx, x: Bytes, ghost h: Bytes) returns (r: Ctx)
    requires Settled(c, h) && c.dict.InDst? && |x| < KB64 && |c.tmpOut| >= KB64
    ensures r == c.(tmpOut := r.tmpOut, dict := InTmp, dictSize := r.dictSize) && |r.tmpOut| == |c.tmpOut|
    ensures Settled(r, h + x)
  {
    hide Tail, Settled, Put, Exact;
    SettledInDst(c, h);
    var preserveSize := KB64 - |x|;
    if preserveSize > c.dictSize {
      preserveSize := c.dictSize;
    }
    var end := c.dict.off + c.dictSize;
    var piece := c.dict.buf[end - preserveSize..end];
    ghost var d := c.dict.buf[c.dict.off..end];
    EndOfRegion(c.dict.buf[..], c.dict.off, end, preserveSize);
    ExactIsTail(d, h);
    ExactWindow(d, h);
    TailCut(d, h, x, preserveSize);
    PutSlices(c.tmpOut, 0, piece);
    var t := Put(c.tmpOut, 0, piece);
    PutSlices(t, preserveSize, x);
    r := c.(tmpOut := Put(t, preserveSize, x), dict := InTmp, dictSize := preserveSize + |x|);
    assert t[..preserveSize] == piece;
    SettledInTmp(r, h + x);
  }

  // Between calls, unless the caller's buffer stays as it is: the history moves into tmpOut.
  method Preserve(c: Ctx, ghost h: Bytes) returns (r: Ctx)
    requires |c.tmpOut| >= KB64
    requires if c.stage.FlushOut? then Flushing(c, h) else Settled(c, h)
    ensures !r.dict.InDst? && |r.tmpOut| == |c.tmpOut|
    ensures r == c.(tmpOut := r.tmpOut, dict := r.dict, dictSize := r.dictSize, outPos := r.outPos)
    ensures c.stage.FlushOut? ==> Flushing(r, h) && r.outPos == c.outPos
    ensures c.stage.FlushOut? ==> r.tmpOut[c.outPos..c.outPos + c.outSize] == c.tmpOut[c.outPos..c.outPos + c.outSize]
    ensures !c.stage.FlushOut? ==> Settled(r, h)
  {
    hide Tail;
    if c.dict.InTmp? {
      r := c;
    } else if c.stage.FlushOut? {
      r := PreserveBlock(c, h);
    } else {
      r := PreserveSettled(c, h);
    }
  }

  method PreserveBlock(c: Ctx, ghost h: Bytes) returns (r: Ctx)
    requires Flushing(c, h) && !c.dict.InTmp?
    ensures r == c.(tmpOut := r.tmpOut, dict := InTmp, dictSize := c.outPos + c.outStart) && |r.tmpOut| == |c.tmpOut|
    ensures r.tmpOut[c.outPos..c.outPos + c.outSize] == c.tmpOut[c.outPos..c.outPos + c.outSize]
    ensures Flushing(r, h)
  {
    hide Tail, Exact;
    if c.dict.InDst? {
      r := IntoTmp(c, h, 0);
      assert h + c.tmpOut[c.outPos + c.outStart..c.outPos + c.outStart] == h;
    } else {
      r := c.(dict := InTmp, dictSize := c.outPos + c.outStart);
      NoHistory(c);
    }
  }

  // A first block, nothing delivered before it.
  lemma NoHistory(c: Ctx)
    requires Flushing(c, []) && c.dict.NoDict?
    ensures c.outPos == 0 && c.outStart == 0
    ensures Tail(c.tmpOut[..c.outPos + c.outSize], [] + Unflushed(c))
  {
    assert c.tmpOut[..c.outPos + c.outSize] == [] + Unflushed(c);
  }

  method PreserveSettled(c: Ctx, ghost h: Bytes) returns (r: Ctx)
    requires Settled(c, h) && !c.dict.InTmp? && |c.tmpOut| >= KB64
    ensures r == c.(tmpOut := r.tmpOut, dict := InTmp, dictSize := r.dictSize, outPos := r.dictSize) && |r.tmpOut| == |c.tmpOut|
    ensures Settled(r, h)
  {
    hide Tail, Put, Exact;
    var newDictSize := Min(c.dictSize, KB64);
    var piece: Bytes := [];
    if c.dict.InDst? {
      var end := c.dict.off + c.dictSize;
      piece := c.dict.buf[end - newDictSize..end];
      ghost var d := c.dict.buf[c.dict.off..end];
      assert piece == d[|d| - newDictSize..];
      ExactIsTail(d, h);
      ExactWindow(d, h);
      TailOfEnd(d, h, newDictSize);
    } else {
      EmptyTail();
    }
    PutSlices(c.tmpOut, 0, piece);
    r := c.(tmpOut := Put(c.tmpOut, 0, piece), dict := InTmp, dictSize := newDictSize, outPos := newDictSize);
    assert r.tmpOut[..newDictSize] == piece;
  }

  lemma EmptyTail()
    ensures Tail([], [])
  {
  }

  // ---------------------------------------------------------------- blocks through tmpOut

  // Room for a block in tmpOut, behind the history it may need.
  method PrepareTmp(c: Ctx, ghost h: Bytes) returns (r: Ctx)
    requires Settled(c, h) && |c.tmpOut| >= KB128
    ensures r == c.(tmpOut := r.tmpOut, dictSize := r.dictSize, outPos := r.outPos) && |r.tmpOut| == |c.tmpOut|
    ensures Settled(r, h) && r.outPos <= KB128 && Min(r.outPos, KB64) == Window(h)
    ensures r.dict.InTmp? ==> r.outPos == r.dictSize
    ensures r.dictSize <= c.dictSize && (r.dictSize < c.dictSize ==> c.dict.InTmp?)
  {
    hide Tail;
    r := c;
    if c.dict.InTmp? {
      if c.dictSize > KB128 {
        var piece := c.tmpOut[c.dictSize - KB64..c.dictSize];
        assert piece == c.tmpOut[..c.dictSize][c.dictSize - KB64..];
        TailOfEnd(c.tmpOut[..c.dictSize], h, KB64);
        PutSlices(c.tmpOut, 0, piece);
        r := c.(tmpOut := Put(c.tmpOut, 0, piece), dictSize := KB64);
        assert r.tmpOut[..KB64] == piece;
      }
      r := r.(outPos := r.dictSize);
    } else {
      r := r.(outPos := Min(c.dictSize, KB64));
    }
  }

  // A decoded block put where PrepareTmp made room.
  lemma StartFlush(c: Ctx, r: Ctx, x: Bytes, h: Bytes)
    requires Settled(c, h) && Min(c.outPos, KB64) == Window(h) && (c.dict.InTmp? ==> c.outPos == c.dictSize)
    requires c.outPos + |x| <= |c.tmpOut|
    requires r.dict == c.dict && r.dictSize == c.dictSize && r.outPos == c.outPos && r.outStart == 0 && r.outSize == |x|
    requires r.tmpOut == Put(c.tmpOut, c.outPos, x)
    ensures Flushing(r, h) && Unflushed(r) == x
  {
    hide Tail, Exact;
    PutSlices(c.tmpOut, c.outPos, x);
    assert r.tmpOut[r.outPos..r.outPos + 0] == h[|h| - 0..];
    if c.dict.InTmp? {
      TailAppend(c.tmpOut[..c.dictSize], h, x);
    }
  }

  // A block flushed to its end leaves the history settled.
  lemma FlushedIsSettled(c: Ctx, h: Bytes)
    requires Flushing(c, h) && c.outStart == c.outSize
    ensures Settled(c, h)
  {
    hide Tail, Exact;
    assert h + Unflushed(c) == h;
  }
}
