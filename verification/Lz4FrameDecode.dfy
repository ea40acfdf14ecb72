/**
  * The streaming decoder of LZ4 frames: a state machine that takes any slice of the stream and any
  * output capacity and buffers what it cannot use yet.  Each stage is tied to the point of the
  * reference reader it stands for, so whatever the slices and capacities, what comes out is what
  * the reference reader reads.
  */
module Lz4FrameDecode {
  import opened Basics
  import opened ByteSeq
  import opened Lz4Format
  import opened Lz4FrameFormat
  import opened Lz4FrameHistory
  import opened Lz4FrameReader

  const WRAP64: nat := 0x1_0000_0000_0000_0000

  // ---------------------------------------------------------------- the shape of the context

  function Need(f: Info): nat
    requires InfoOk(f)
  {
    BlockSizeOf(f.blockSizeID) + if f.linked then KB128 else 0
  }

  predicate IsBlockSize(n: int) {
    n == KB64 || n == 4 * KB64 || n == 16 * KB64 || n == 64 * KB64
  }

  // Buffers left from earlier frames are reused only when they are large enough for any frame
  // that fits their total.
  ghost predicate AllocOk(c: Ctx) {
    && |c.header| == MAX_HEADER && |c.tmpOut| == c.maxBuffer
    && (c.maxBuffer > 0 ==> IsBlockSize(|c.tmpIn| - 4) && c.maxBuffer <= |c.tmpIn| - 4 + KB128)
  }

  ghost predicate Ready(c: Ctx) {
    && InfoOk(c.info) && c.maxBlock == BlockSizeOf(c.info.blockSizeID)
    && |c.tmpIn| >= c.maxBlock + 4 && c.maxBuffer >= Need(c.info)
  }

  predicate InBlocks(t: Stage) {
    match t
    case GetBlockHeader | StoreBlockHeader | CopyDirect | GetBlockChecksum
       | GetCBlock | StoreCBlock | FlushOut | GetSuffix | StoreSuffix => true
    case _ => false
  }

  predicate CBlockStage(t: Stage) {
    t.GetCBlock? || t.StoreCBlock?
  }

  // Before any block of a frame.
  predicate HeaderStage(t: Stage) {
    match t
    case GetFrameHeader | StoreFrameHeader | Init | GetSFrameSize | StoreSFrameSize | SkipSkippable => true
    case _ => false
  }

  ghost predicate StageOk(c: Ctx) {
    match c.stage
    case GetFrameHeader | GetBlockHeader | GetSuffix | GetSFrameSize | SkipSkippable => true
    case StoreFrameHeader =>
      && |c.header| == MAX_HEADER && c.tmpInSize < c.tmpInTarget <= MAX_HEADER && c.tmpInTarget >= MIN_HEADER
      && (c.tmpInTarget > MIN_HEADER ==> c.tmpInSize >= MIN_HEADER && HeaderBegun(c.header, c.tmpInTarget))
    case Init => InfoOk(c.info) && c.maxBlock == BlockSizeOf(c.info.blockSizeID)
    case StoreBlockHeader => c.tmpInSize < 4
    case CopyDirect => 1 <= c.tmpInTarget <= c.maxBlock
    case GetBlockChecksum => c.tmpInSize < 4 && c.info.blockSum
    case GetCBlock => CrcSize(c.info) < c.tmpInTarget <= c.maxBlock + CrcSize(c.info)
    case StoreCBlock => c.tmpInSize < c.tmpInTarget && CrcSize(c.info) < c.tmpInTarget <= c.maxBlock + CrcSize(c.info)
    case FlushOut => c.outPos + c.outSize <= |c.tmpOut| && c.outStart <= c.outSize
    case StoreSuffix => c.tmpInSize < 4 && c.info.contentSum && c.remaining == 0
    case StoreSFrameSize => 4 <= c.tmpInSize < 8 == c.tmpInTarget
  }

  // The first bytes of a header announce its size; they are not those of a skippable frame.
  ghost predicate HeaderBegun(header: Bytes, size: nat) {
    |header| == MAX_HEADER && size == HeaderSize(header[4]) && Word32(header, 0) / 16 * 16 != MAGIC_SKIPPABLE
  }

  ghost predicate Wf(c: Ctx) {
    AllocOk(c) && StageOk(c) && (InBlocks(c.stage) ==> Ready(c))
  }

  // ---------------------------------------------------------------- the stream and the meters

  ghost predicate Buffered(buf: Bytes, n: nat, s: Bytes, at: nat) {
    n <= at <= |s| && n <= |buf| && buf[..n] == s[at - n..at]
  }

  lemma BufferedIs(buf: Bytes, n: nat, s: Bytes, at: nat)
    requires Buffered(buf, n, s, at)
    ensures n <= at <= |s| && n <= |buf| && buf[..n] == s[at - n..at]
  {
  }

  // What is buffered are the last bytes taken from the stream.
  ghost predicate Synced(c: Ctx, s: Bytes, at: nat) {
    at <= |s| &&
    match c.stage
    case StoreFrameHeader | GetBlockChecksum => Buffered(c.header, c.tmpInSize, s, at)
    case StoreBlockHeader | StoreCBlock | StoreSuffix => Buffered(c.tmpIn, c.tmpInSize, s, at)
    case StoreSFrameSize =>
      4 <= c.tmpInSize <= |c.header| && c.tmpInSize - 4 <= at && c.header[4..c.tmpInSize] == s[at - (c.tmpInSize - 4)..at]
    case _ => true
  }

  // Everything decoded in this frame: delivered, or waiting in tmpOut.
  ghost function Decoded(c: Ctx, h: Bytes): Bytes
    requires StageOk(c)
  {
    if c.stage.FlushOut? then h + Unflushed(c) else h
  }

  // The content checksum and the content size run over all that was decoded.
  ghost predicate Meters(c: Ctx, h: Bytes)
    requires StageOk(c)
  {
    if InBlocks(c.stage) then
      && (c.info.contentSum ==> c.content == Decoded(c, h))
      && c.remaining == (if c.info.contentSize > 0 then (c.info.contentSize - |Decoded(c, h)|) % WRAP64 else 0)
    else
      h == [] && c.remaining == if c.stage.Init? then c.info.contentSize else 0
  }

  // What the reference reader reads from here.
  ghost function RestOf(k: Codec, c: Ctx, h: Bytes, s: Bytes, at: nat): Frame
    requires Wf(c) && Synced(c, s, at)
  {
    match c.stage
    case GetFrameHeader => ReadFrame(k, s, at)
    case StoreFrameHeader => ReadFrame(k, s, at - c.tmpInSize)
    case Init => ReadBlocks(k, c.info, s, at, h)
    case GetBlockHeader => ReadBlocks(k, c.info, s, at, h)
    case StoreBlockHeader => ReadBlocks(k, c.info, s, at - c.tmpInSize, h)
    case CopyDirect => ReadDirect(k, c.info, s, at, c.tmpInTarget, if c.info.blockSum then c.fed else [], h)
    case GetBlockChecksum => ReadBlockSum(k, c.info, s, at - c.tmpInSize, c.fed, h)
    case GetCBlock => ReadPacked(k, c.info, s, at, c.tmpInTarget, h)
    case StoreCBlock => ReadPacked(k, c.info, s, at - c.tmpInSize, c.tmpInTarget, h)
    case FlushOut => ReadBlocks(k, c.info, s, at, h + Unflushed(c))
    case GetSuffix => ReadSuffix(k, c.info, s, at, h)
    case StoreSuffix => ReadSuffix(k, c.info, s, at - c.tmpInSize, h)
    case GetSFrameSize => ReadSkippable(s, at)
    case StoreSFrameSize => ReadSkippable(s, at - (c.tmpInSize - 4))
    case SkipSkippable => Skip(s, at, c.tmpInTarget)
  }

  // `rest` is the frame `goal`, as far as content from `n` on is concerned.
  ghost predicate Follows(goal: Frame, rest: Frame, n: nat) {
    && (goal.Bad? <==> rest.Bad?)
    && (goal.Complete? && rest.Complete? ==>
          && goal.content == rest.content && goal.end == rest.end && (rest.blank ==> goal.blank)
          && forall y: Doubt :: y.offset >= n ==> (y in goal.doubts <==> y in rest.doubts))
  }

  lemma FollowsItself(goal: Frame, n: nat)
    ensures Follows(goal, goal, n)
  {
  }

  lemma FollowsLess(goal: Frame, rest: Frame, n: nat, m: nat)
    requires Follows(goal, rest, n) && n <= m
    ensures Follows(goal, rest, m)
  {
  }

  lemma FollowsBad(goal: Frame, n: nat)
    ensures Follows(goal, Bad, n) <==> goal.Bad?
  {
  }

  // The state of the machine at `at` in the stream; `goal` is what the reference reader makes of
  // the frame.
  ghost predicate Inv(k: Codec, goal: Frame, c: Ctx, h: Bytes, s: Bytes, at: nat) {
    && Wf(c) && Synced(c, s, at) && Meters(c, h)
    && Follows(goal, RestOf(k, c, h, s, at), |Decoded(c, h)|)
  }

  // ---------------------------------------------------------------- stepping

  datatype Act = Again | Stop(hint: nat) | Fail

  // Stages that may be entered without input, in the order they lead to each other.
  function Rank(t: Stage): nat {
    match t
    case GetFrameHeader => 9
    case FlushOut => 8
    case Init => 7
    case GetBlockHeader => 6
    case GetCBlock | GetSuffix | GetSFrameSize => 5
    case _ => 4
  }

  ghost predicate Chunk(src: Bytes, s: Bytes, pos: nat) {
    pos + |src| <= |s| && src == s[pos..pos + |src|]
  }

  lemma ChunkSlice(src: Bytes, s: Bytes, pos: nat, i: nat, j: nat)
    requires Chunk(src, s, pos) && i <= j <= |src|
    ensures src[i..j] == s[pos + i..pos + j]
  {
    SliceOfSlice(s, pos, |src|, i, j);
  }

  // What every step leaves behind.
  ghost predicate Stepped(k: Codec, goal: Frame, c: Ctx, i: nat, r: Ctx, h: Bytes, j: nat, act: Act,
                          src: Bytes, s: Bytes, pos: nat)
  {
    && i <= j <= |src|
    && (act.Fail? ==> goal.Bad?)
    && (!act.Fail? ==> Inv(k, goal, r, h, s, pos + j))
    && (act.Again? ==> j > i || Rank(r.stage) < Rank(c.stage))
  }

  // Take up to `want` bytes of input into `buf` behind the `size` already there.
  method Take(buf: Bytes, size: nat, want: nat, src: Bytes, i: nat, ghost s: Bytes, ghost pos: nat)
    returns (r: Bytes, n: nat)
    requires Chunk(src, s, pos) && i <= |src| && size + want <= |buf|
    ensures n == Min(want, |src| - i) && |r| == |buf|
    ensures r == Put(buf, size, src[i..i + n])
    ensures Buffered(buf, size, s, pos + i) ==> Buffered(r, size + n, s, pos + i + n)
  {
    n := Min(want, |src| - i);
    r := Put(buf, size, src[i..i + n]);
    PutSlices(buf, size, src[i..i + n]);
    ChunkSlice(src, s, pos, i, i + n);
    ghost var at := pos + i;
    if Buffered(buf, size, s, at) {
      assert s[at - size..at + n] == s[at - size..at] + s[at..at + n];
    }
  }

  // Decoded bytes that wait in tmpOut.
  function Pending(c: Ctx): nat {
    if c.stage.FlushOut? && c.outStart <= c.outSize then c.outSize - c.outStart else 0
  }

  // A stage in which a call may stop: something of the frame is still to come.
  ghost predicate Resting(c: Ctx) {
    !c.stage.GetSuffix? && !c.stage.Init? && (c.stage.SkipSkippable? ==> c.tmpInTarget > 0)
  }

  // A stage in which a call stops for lack of room: there is more to deliver, unless a compressed
  // block without content comes next.
  ghost predicate Waiting(c: Ctx) {
    c.stage.GetCBlock? || c.stage.CopyDirect? || (c.stage.FlushOut? && c.outStart < c.outSize)
  }

  // The hint returned where a call rests: in most stages what is left of the current block or
  // header and the header of the next block.
  function HintOf(c: Ctx): int {
    match c.stage
    case GetFrameHeader => MIN_HEADER
    case StoreFrameHeader => c.tmpInTarget - c.tmpInSize + 4
    case StoreBlockHeader => 4 - c.tmpInSize
    case CopyDirect => c.tmpInTarget + CrcSize(c.info) + 4
    case GetBlockChecksum => 1
    case GetCBlock => c.tmpInTarget + 4
    case StoreCBlock => c.tmpInTarget - c.tmpInSize + CrcSize(c.info) + 4
    case FlushOut => 4
    case StoreSuffix => 4 - c.tmpInSize
    case StoreSFrameSize => c.tmpInTarget - c.tmpInSize
    case SkipSkippable => c.tmpInTarget
    case _ => 0
  }

  ghost predicate Rests(c: Ctx, hint: nat) {
    Resting(c) && 0 < hint == HintOf(c)
  }

  // ---------------------------------------------------------------- the frame header

  const NO_INFO := Info(true, false, false, 0, 0, 0)

  // The header in `h`, which is the start of the frame at `fs`: complete, cut short, or wrong.
  // `own` says that it stands in the context's own buffer.
  method DecodeHeader(k: Codec, c: Ctx, h: Bytes, own: bool, ghost goal: Frame, ghost s: Bytes, ghost fs: nat)
    returns (r: Ctx, used: nat, ok: bool)
    requires MIN_HEADER <= |h| && fs + |h| <= |s| && h == s[fs..fs + |h|]
    requires AllocOk(c) && c.remaining == 0
    requires Follows(goal, ReadFrame(k, s, fs), 0)
    requires own ==> Buffered(c.header, |h|, s, fs + |h|) && (|h| == MIN_HEADER || |h| == HeaderSize(h[4]))
    requires own && |h| > MIN_HEADER ==> Word32(h, 0) / 16 * 16 != MAGIC_SKIPPABLE
    requires !own ==> |h| >= MAX_HEADER
    ensures !ok ==> goal.Bad?
    ensures ok ==> MIN_HEADER - 3 <= used <= |h| && (own ==> used == |h|)
    ensures ok ==> r == c.(stage := r.stage, info := r.info, maxBlock := r.maxBlock, remaining := r.remaining,
                           tmpInSize := r.tmpInSize, tmpInTarget := r.tmpInTarget)
    ensures ok ==> HeaderStage(r.stage)
    ensures ok ==> Inv(k, goal, r, [], s, fs + used)
  {
    hide Inv, ReadFrame, ReadBlocks, ParseHeader, HeaderSum, FlagsValid, Word32, ReadSkippable, Follows;
    FollowsBad(goal, 0);
    WordAt(h, s, fs, 0);
    var word := Word32(h, 0);
    r, used, ok := c, 0, false;
    if word / 16 * 16 == MAGIC_SKIPPABLE {
      Skippable(k, s, fs);
      if own {
        r := c.(info := NO_INFO, tmpInSize := |h|, tmpInTarget := 8, stage := StoreSFrameSize);
        HeaderPart(c, h, s, fs);
        SFrameSizeInv(k, goal, r, s, fs + |h|);
        return r, |h|, true;
      } else {
        r := c.(info := NO_INFO, stage := GetSFrameSize);
        SFrameSizeInv(k, goal, r, s, fs + 4);
        return r, 4, true;
      }
    }
    assert h[4] == s[fs + 4];
    if word != MAGIC || !FlagsValid(h[4]) {
      HeaderBad(k, s, fs);
      return;
    }
    var size := HeaderSize(h[4]);
    if |h| < size {
      r := c.(tmpInSize := |h|, tmpInTarget := size, stage := StoreFrameHeader);
      HeaderWord(c.header, |h|);
      assert c.header[..|h|] == h;
      StoringHeaderInv(k, goal, r, s, fs + |h|);
      return r, |h|, true;
    }
    SliceOfSlice(s, fs, |h|, 0, size);
    assert h[..size] == h[0..size] == s[fs..fs + size];
    HeaderIs(k, s, fs, size);
    match ParseHeader(k, h[..size]) {
      case None =>
        return;
      case Some(f) =>
        r := c.(info := f, maxBlock := BlockSizeOf(f.blockSizeID), stage := Init,
                remaining := if f.contentSize > 0 then f.contentSize else c.remaining);
        InitInv(k, goal, r, s, fs + size);
        return r, size, true;
    }
  }

  lemma Skippable(k: Codec, s: Bytes, fs: nat)
    requires fs + MIN_HEADER <= |s| && Word32(s, fs) / 16 * 16 == MAGIC_SKIPPABLE
    ensures ReadFrame(k, s, fs) == ReadSkippable(s, fs + 4)
  {
  }

  lemma HeaderIs(k: Codec, s: Bytes, fs: nat, size: nat)
    requires fs + MIN_HEADER <= |s| && Word32(s, fs) / 16 * 16 != MAGIC_SKIPPABLE
    requires size == HeaderSize(s[fs + 4]) && fs + size <= |s|
    ensures var p := ParseHeader(k, s[fs..fs + size]);
      ReadFrame(k, s, fs) == if p.None? then Bad else ReadBlocks(k, p.value, s, fs + size, [])
  {
    hide ParseHeader, ReadBlocks;
  }

  lemma InitInv(k: Codec, goal: Frame, c: Ctx, s: Bytes, at: nat)
    requires c.stage.Init? && AllocOk(c) && InfoOk(c.info) && c.maxBlock == BlockSizeOf(c.info.blockSizeID)
    requires c.remaining == c.info.contentSize && at <= |s|
    requires Follows(goal, ReadBlocks(k, c.info, s, at, []), 0)
    ensures Inv(k, goal, c, [], s, at)
  {
    hide ReadBlocks, Follows;
  }

  lemma SFrameSizeInv(k: Codec, goal: Frame, c: Ctx, s: Bytes, at: nat)
    requires AllocOk(c) && c.remaining == 0 && at <= |s|
    requires c.stage.GetSFrameSize? || (c.stage.StoreSFrameSize? && 4 <= c.tmpInSize < 8 == c.tmpInTarget && c.tmpInSize - 4 <= at)
    requires c.stage.StoreSFrameSize? ==> c.header[4..c.tmpInSize] == s[at - (c.tmpInSize - 4)..at]
    requires Follows(goal, ReadSkippable(s, if c.stage.GetSFrameSize? then at else at - (c.tmpInSize - 4)), 0)
    ensures Inv(k, goal, c, [], s, at)
  {
    hide ReadSkippable, Follows;
  }

  lemma WordAt(h: Bytes, s: Bytes, at: nat, i: nat)
    requires i + 4 <= |h| && at + |h| <= |s| && h == s[at..at + |h|]
    ensures Word32(h, i) == Word32(s, at + i)
  {
    SliceOfSlice(s, at, |h|, i, i + 4);
  }

  lemma HeaderPart(c: Ctx, h: Bytes, s: Bytes, fs: nat)
    requires MIN_HEADER <= |h| <= |c.header| && fs + |h| <= |s| && h == s[fs..fs + |h|]
    requires Buffered(c.header, |h|, s, fs + |h|)
    ensures c.header[4..|h|] == s[fs + 4..fs + |h|]
  {
    assert c.header[4..|h|] == c.header[..|h|][4..];
    SliceOfSlice(s, fs, |h|, 4, |h|);
  }

  // A wrong magic number, version or reserved bit is wrong whatever follows.
  lemma HeaderBad(k: Codec, s: Bytes, fs: nat)
    requires fs + MIN_HEADER <= |s| && Word32(s, fs) / 16 * 16 != MAGIC_SKIPPABLE
    requires Word32(s, fs) != MAGIC || !FlagsValid(s[fs + 4])
    ensures ReadFrame(k, s, fs).Bad?
  {
    if fs + HeaderSize(s[fs + 4]) <= |s| {
      var h := s[fs..fs + HeaderSize(s[fs + 4])];
      WordAt(h, s, fs, 0);
      assert h[4] == s[fs + 4];
    }
  }

  // Storing a header that began at `at - c.tmpInSize`.
  ghost predicate StoringHeader(k: Codec, goal: Frame, c: Ctx, s: Bytes, at: nat) {
    && AllocOk(c) && c.remaining == 0 && Buffered(c.header, c.tmpInSize, s, at)
    && c.tmpInSize < c.tmpInTarget <= MAX_HEADER && c.tmpInTarget >= MIN_HEADER
    && (c.tmpInTarget > MIN_HEADER ==> c.tmpInSize >= MIN_HEADER && HeaderBegun(c.header, c.tmpInTarget))
    && Follows(goal, ReadFrame(k, s, at - c.tmpInSize), 0)
  }

  lemma StoringHeaderInv(k: Codec, goal: Frame, c: Ctx, s: Bytes, at: nat)
    requires c.stage.StoreFrameHeader?
    ensures Inv(k, goal, c, [], s, at) <==> StoringHeader(k, goal, c, s, at)
  {
    hide ReadFrame, HeaderBegun, Follows;
  }

  method GetFrameHeaderStep(k: Codec, c: Ctx, src: Bytes, i: nat, ghost goal: Frame, ghost s: Bytes, ghost pos: nat)
    returns (r: Ctx, j: nat, act: Act)
    requires c.stage.GetFrameHeader? && i <= |src| && Chunk(src, s, pos) && Inv(k, goal, c, [], s, pos + i)
    ensures Stepped(k, goal, c, i, r, [], j, act, src, s, pos)
    ensures act.Stop? ==> j == |src| && Rests(r, act.hint)
    ensures !act.Fail? ==> r.dict == c.dict && r.dictSize == c.dictSize && HeaderStage(r.stage)
  {
    hide ReadFrame, Follows;
    if |src| - i >= MAX_HEADER {
      ChunkSlice(src, s, pos, i, |src|);
      var used, ok;
      r, used, ok := DecodeHeader(k, c, src[i..], false, goal, s, pos + i);
      if !ok {
        return r, i, Fail;
      }
      return r, i + used, Again;
    }
    r := c.(tmpInSize := 0);
    if |src| == i {
      return r, i, Stop(MIN_HEADER);
    }
    r := r.(tmpInTarget := MIN_HEADER, stage := StoreFrameHeader);
    return r, i, Again;
  }

  method StoreFrameHeaderStep(k: Codec, c: Ctx, src: Bytes, i: nat, ghost goal: Frame, ghost s: Bytes, ghost pos: nat)
    returns (r: Ctx, j: nat, act: Act)
    requires c.stage.StoreFrameHeader? && i <= |src| && Chunk(src, s, pos) && Inv(k, goal, c, [], s, pos + i)
    ensures Stepped(k, goal, c, i, r, [], j, act, src, s, pos)
    ensures act.Stop? ==> j == |src| && Rests(r, act.hint)
    ensures !act.Fail? ==> r.dict == c.dict && r.dictSize == c.dictSize && HeaderStage(r.stage)
  {
    hide ReadFrame, Inv, HeaderBegun, Put, Word32, HeaderSize, InBlocks, Buffered, Rests, Follows;
    StoringHeaderInv(k, goal, c, s, pos + i);
    var header, n := Take(c.header, c.tmpInSize, c.tmpInTarget - c.tmpInSize, src, i, s, pos);
    var size := c.tmpInSize + n;
    r := c.(header := header, tmpInSize := size);
    j := i + n;
    HeaderKept(c, header, src[i..i + n]);
    if size < c.tmpInTarget {
      StoringHeaderInv(k, goal, r, s, pos + j);
      HeaderRests(r);
      return r, j, Stop(c.tmpInTarget - size + 4);
    }
    BufferedIs(header, size, s, pos + j);
    ghost var fs := pos + j - size;
    var used, ok;
    HeaderWord(header, size);
    r, used, ok := DecodeHeader(k, r, header[..size], true, goal, s, fs);
    act := if ok then Again else Fail;
  }

  lemma HeaderWord(header: Bytes, size: nat)
    requires MIN_HEADER <= size <= |header|
    ensures Word32(header[..size], 0) == Word32(header, 0) && header[..size][4] == header[4]
  {
    assert header[..size][0..4] == header[0..4];
  }

  lemma HeaderKept(c: Ctx, header: Bytes, x: Bytes)
    requires c.tmpInSize + |x| <= c.tmpInTarget <= |c.header|
    requires c.tmpInTarget > MIN_HEADER ==> c.tmpInSize >= MIN_HEADER && HeaderBegun(c.header, c.tmpInTarget)
    requires header == Put(c.header, c.tmpInSize, x)
    ensures c.tmpInTarget > MIN_HEADER ==> HeaderBegun(header, c.tmpInTarget)
    ensures c.tmpInTarget > MIN_HEADER ==> Word32(header, 0) / 16 * 16 != MAGIC_SKIPPABLE && c.tmpInTarget == HeaderSize(header[4])
  {
    if c.tmpInTarget > MIN_HEADER {
      assert header[0..4] == c.header[0..4];
    }
  }

  // ---------------------------------------------------------------- inside the blocks

  // Buffers, content checksum and content size, when `x` is what the frame decoded to so far.
  ghost predicate Core(c: Ctx, x: Bytes) {
    && AllocOk(c) && Ready(c)
    && (c.info.contentSum ==> c.content == x)
    && c.remaining == if c.info.contentSize > 0 then (c.info.contentSize - |x|) % WRAP64 else 0
  }

  lemma CoreKeeps(c: Ctx, r: Ctx, x: Bytes)
    requires Core(c, x)
    requires r.info == c.info && r.maxBlock == c.maxBlock && r.maxBuffer == c.maxBuffer
    requires r.remaining == c.remaining && r.content == c.content
    requires |r.tmpIn| == |c.tmpIn| && |r.header| == |c.header| && |r.tmpOut| == |c.tmpOut|
    ensures Core(r, x)
  {
  }

  lemma CoreFacts(c: Ctx, x: Bytes)
    requires Core(c, x)
    ensures InfoOk(c.info) && c.maxBlock == BlockSizeOf(c.info.blockSizeID) && |c.tmpIn| >= c.maxBlock + 4
    ensures |c.header| == MAX_HEADER && |c.tmpOut| == c.maxBuffer >= Need(c.info)
  {
  }

  // Take up to `want` bytes of input into tmpIn.
  method TakeIn(c: Ctx, want: nat, src: Bytes, i: nat, ghost h: Bytes, ghost s: Bytes, ghost pos: nat) returns (r: Ctx, j: nat)
    requires Core(c, h) && i <= |src| && Chunk(src, s, pos) && c.tmpInSize + want <= |c.tmpIn|
    requires Buffered(c.tmpIn, c.tmpInSize, s, pos + i)
    ensures i <= j <= |src| && j - i <= want && (j - i < want ==> j == |src|)
    ensures r == c.(tmpIn := r.tmpIn, tmpInSize := c.tmpInSize + (j - i)) && |r.tmpIn| == |c.tmpIn|
    ensures Core(r, h) && Buffered(r.tmpIn, r.tmpInSize, s, pos + j)
  {
    hide Core, Put, Buffered, Chunk;
    var tmpIn, n := Take(c.tmpIn, c.tmpInSize, want, src, i, s, pos);
    r, j := c.(tmpIn := tmpIn, tmpInSize := c.tmpInSize + n), i + n;
    CoreKeeps(c, r, h);
  }

  // The stages of a block, each with its point of the reference reader.

  lemma BlockHeaderInv(k: Codec, goal: Frame, c: Ctx, h: Bytes, s: Bytes, at: nat)
    requires c.stage.GetBlockHeader? && InfoOk(c.info)
    ensures Inv(k, goal, c, h, s, at) <==>
      Core(c, h) && at <= |s| && Follows(goal, ReadBlocks(k, c.info, s, at, h), |h|)
  {
    hide ReadBlocks, Follows;
  }

  lemma StoreBlockHeaderInv(k: Codec, goal: Frame, c: Ctx, h: Bytes, s: Bytes, at: nat)
    requires c.stage.StoreBlockHeader? && InfoOk(c.info)
    ensures Inv(k, goal, c, h, s, at) <==>
      Core(c, h) && c.tmpInSize < 4 && Buffered(c.tmpIn, c.tmpInSize, s, at)
      && Follows(goal, ReadBlocks(k, c.info, s, at - c.tmpInSize, h), |h|)
  {
    hide ReadBlocks, Follows;
  }

  lemma CopyDirectInv(k: Codec, goal: Frame, c: Ctx, h: Bytes, s: Bytes, at: nat)
    requires c.stage.CopyDirect? && InfoOk(c.info)
    ensures Inv(k, goal, c, h, s, at) <==>
      Core(c, h) && 1 <= c.tmpInTarget <= c.maxBlock && at <= |s|
      && Follows(goal, ReadDirect(k, c.info, s, at, c.tmpInTarget, if c.info.blockSum then c.fed else [], h), |h|)
  {
    hide ReadDirect, Follows;
  }

  lemma BlockChecksumInv(k: Codec, goal: Frame, c: Ctx, h: Bytes, s: Bytes, at: nat)
    requires c.stage.GetBlockChecksum? && InfoOk(c.info)
    ensures Inv(k, goal, c, h, s, at) <==>
      Core(c, h) && c.tmpInSize < 4 && c.info.blockSum && Buffered(c.header, c.tmpInSize, s, at)
      && Follows(goal, ReadBlockSum(k, c.info, s, at - c.tmpInSize, c.fed, h), |h|)
  {
    hide ReadBlockSum, Follows;
  }

  lemma CBlockInv(k: Codec, goal: Frame, c: Ctx, h: Bytes, s: Bytes, at: nat)
    requires c.stage.GetCBlock? && InfoOk(c.info)
    ensures Inv(k, goal, c, h, s, at) <==>
      Core(c, h) && CrcSize(c.info) < c.tmpInTarget <= c.maxBlock + CrcSize(c.info) && at <= |s|
      && Follows(goal, ReadPacked(k, c.info, s, at, c.tmpInTarget, h), |h|)
  {
    hide ReadPacked, Follows;
  }

  lemma StoreCBlockInv(k: Codec, goal: Frame, c: Ctx, h: Bytes, s: Bytes, at: nat)
    requires c.stage.StoreCBlock? && InfoOk(c.info)
    ensures Inv(k, goal, c, h, s, at) <==>
      Core(c, h) && c.tmpInSize < c.tmpInTarget && CrcSize(c.info) < c.tmpInTarget <= c.maxBlock + CrcSize(c.info)
      && Buffered(c.tmpIn, c.tmpInSize, s, at)
      && Follows(goal, ReadPacked(k, c.info, s, at - c.tmpInSize, c.tmpInTarget, h), |h|)
  {
    hide ReadPacked, Follows;
  }

  lemma FlushInv(k: Codec, goal: Frame, c: Ctx, h: Bytes, s: Bytes, at: nat)
    requires c.stage.FlushOut? && InfoOk(c.info) && c.outPos + c.outSize <= |c.tmpOut| && c.outStart <= c.outSize
    ensures Inv(k, goal, c, h, s, at) <==>
      Core(c, h + Unflushed(c)) && at <= |s| && Follows(goal, ReadBlocks(k, c.info, s, at, h + Unflushed(c)), |h + Unflushed(c)|)
  {
    hide ReadBlocks, Follows;
  }

  lemma SuffixInv(k: Codec, goal: Frame, c: Ctx, h: Bytes, s: Bytes, at: nat)
    requires c.stage.GetSuffix? && InfoOk(c.info)
    ensures Inv(k, goal, c, h, s, at) <==>
      Core(c, h) && at <= |s| && Follows(goal, ReadSuffix(k, c.info, s, at, h), |h|)
  {
    hide ReadSuffix, Follows;
  }

  lemma StoreSuffixInv(k: Codec, goal: Frame, c: Ctx, h: Bytes, s: Bytes, at: nat)
    requires c.stage.StoreSuffix? && InfoOk(c.info)
    ensures Inv(k, goal, c, h, s, at) <==>
      Core(c, h) && c.tmpInSize < 4 && c.info.contentSum && c.remaining == 0 && Buffered(c.tmpIn, c.tmpInSize, s, at)
      && Follows(goal, ReadSuffix(k, c.info, s, at - c.tmpInSize, h), |h|)
  {
    hide ReadSuffix, Follows;
  }

  lemma InvInfo(k: Codec, goal: Frame, c: Ctx, h: Bytes, s: Bytes, at: nat)
    requires Inv(k, goal, c, h, s, at) && InBlocks(c.stage)
    ensures InfoOk(c.info)
    ensures c.stage.FlushOut? ==> c.outPos + c.outSize <= |c.tmpOut| && c.outStart <= c.outSize
  {
  }

  // ---------------------------------------------------------------- allocation

  // A buffer large enough in total is large enough for the input of a block too.
  lemma Reusable(tmpIn: int, total: nat, f: Info)
    requires InfoOk(f) && IsBlockSize(tmpIn - 4) && total <= tmpIn - 4 + KB128 && total >= Need(f)
    ensures tmpIn >= BlockSizeOf(f.blockSizeID) + 4
  {
  }

  method InitStep(k: Codec, c: Ctx, i: nat, ghost goal: Frame, ghost s: Bytes, ghost at: nat) returns (r: Ctx)
    requires c.stage.Init? && Inv(k, goal, c, [], s, at)
    ensures r.stage.GetBlockHeader? && r.dict == c.dict && r.dictSize == c.dictSize && r.info == c.info && r.outPos == 0
    ensures Inv(k, goal, r, [], s, at)
  {
    hide ReadBlocks, Follows;
    r := c;
    if c.info.contentSum {
      r := r.(content := []);
    }
    var bufferNeeded := Need(c.info);
    if bufferNeeded > c.maxBuffer {
      r := r.(tmpIn := seq(c.maxBlock + 4, _ => 0), tmpOut := seq(bufferNeeded, _ => 0), maxBuffer := bufferNeeded);
    } else {
      Reusable(|c.tmpIn|, c.maxBuffer, c.info);
    }
    r := r.(tmpInSize := 0, tmpInTarget := 0, outPos := 0, outStart := 0, outSize := 0, stage := GetBlockHeader);
    assert c.info.contentSize % WRAP64 == c.info.contentSize;
  }

  // ---------------------------------------------------------------- block headers

  // The word of a block header that ended at `at`.
  method DecodeBlockHeader(k: Codec, c: Ctx, word: nat, full: bool, ghost goal: Frame, ghost h: Bytes, ghost s: Bytes, ghost at: nat)
    returns (r: Ctx, act: Act)
    requires Core(c, h) && InfoOk(c.info) && 4 <= at <= |s| && word == Word32(s, at - 4)
    requires Follows(goal, ReadBlocks(k, c.info, s, at - 4, h), |h|)
    ensures act.Fail? ==> goal.Bad?
    ensures act.Stop? ==> full && r.stage.GetCBlock? && Rests(r, act.hint)
    ensures act.Again? && CBlockStage(r.stage) ==> !full
    ensures !act.Fail? ==> Inv(k, goal, r, h, s, at)
    ensures !act.Fail? ==> r.stage.GetSuffix? || r.stage.CopyDirect? || r.stage.GetCBlock?
    ensures !act.Fail? ==> r == c.(stage := r.stage, tmpInTarget := r.tmpInTarget, fed := r.fed)
  {
    hide Inv, ReadDirect, ReadPacked, ReadSuffix, Core, Word32, Follows;
    CoreFacts(c, h);
    FollowsBad(goal, |h|);
    var n := word % UNCOMPRESSED;
    if n == 0 {
      r := c.(stage := GetSuffix);
      CoreKeeps(c, r, h);
      SuffixInv(k, goal, r, h, s, at);
      return r, Again;
    }
    if n > c.maxBlock {
      return c, Fail;
    }
    if word >= UNCOMPRESSED {
      r := c.(tmpInTarget := n, fed := if c.info.blockSum then [] else c.fed, stage := CopyDirect);
      CoreKeeps(c, r, h);
      CopyDirectInv(k, goal, r, h, s, at);
      return r, Again;
    }
    r := c.(tmpInTarget := n + CrcSize(c.info), stage := GetCBlock);
    CoreKeeps(c, r, h);
    CBlockInv(k, goal, r, h, s, at);
    act := if full then Stop(4 + r.tmpInTarget) else Again;
  }

  method GetBlockHeaderStep(k: Codec, c: Ctx, src: Bytes, i: nat, dstFull: bool, ghost goal: Frame, ghost h: Bytes, ghost s: Bytes, ghost pos: nat)
    returns (r: Ctx, j: nat, act: Act)
    requires c.stage.GetBlockHeader? && i <= |src| && Chunk(src, s, pos) && Inv(k, goal, c, h, s, pos + i)
    ensures Stepped(k, goal, c, i, r, h, j, act, src, s, pos)
    ensures act.Stop? ==> (j == |src| || (dstFull && Waiting(r))) && Rests(r, act.hint)
    ensures act.Again? && CBlockStage(r.stage) ==> !dstFull
    ensures !act.Fail? ==> BlockStage(c, r)
  {
    hide Inv, ReadBlocks, Core, Follows;
    InvInfo(k, goal, c, h, s, pos + i);
    BlockHeaderInv(k, goal, c, h, s, pos + i);
    if |src| - i >= 4 {
      WordAt(src, s, pos, i);
      r, act := DecodeBlockHeader(k, c, Word32(src, i), dstFull || i + 4 == |src|, goal, h, s, pos + i + 4);
      j := i + 4;
    } else {
      r := c.(tmpInSize := 0, stage := StoreBlockHeader);
      CoreKeeps(c, r, h);
      StoreBlockHeaderInv(k, goal, r, h, s, pos + i);
      return r, i, Again;
    }
  }

  // The step stayed inside the blocks and left the history as it was.
  ghost predicate BlockStage(c: Ctx, r: Ctx) {
    InBlocks(r.stage) && !r.stage.FlushOut? && r.dict == c.dict && r.dictSize == c.dictSize
    && r.tmpOut == c.tmpOut && r.outPos == c.outPos && r.info == c.info
  }

  method StoreBlockHeaderStep(k: Codec, c: Ctx, src: Bytes, i: nat, dstFull: bool, ghost goal: Frame, ghost h: Bytes, ghost s: Bytes, ghost pos: nat)
    returns (r: Ctx, j: nat, act: Act)
    requires c.stage.StoreBlockHeader? && i <= |src| && Chunk(src, s, pos) && Inv(k, goal, c, h, s, pos + i)
    ensures Stepped(k, goal, c, i, r, h, j, act, src, s, pos)
    ensures act.Stop? ==> (j == |src| || (dstFull && Waiting(r))) && Rests(r, act.hint)
    ensures act.Again? && CBlockStage(r.stage) ==> !dstFull
    ensures !act.Fail? ==> BlockStage(c, r)
  {
    hide Inv, ReadBlocks, Core, Word32, Follows, Buffered, Rests, Chunk;
    InvInfo(k, goal, c, h, s, pos + i);
    StoreBlockHeaderInv(k, goal, c, h, s, pos + i);
    CoreFacts(c, h);
    r, j := TakeIn(c, 4 - c.tmpInSize, src, i, h, s, pos);
    if r.tmpInSize < 4 {
      StoreBlockHeaderInv(k, goal, r, h, s, pos + j);
      HeaderRests(r);
      return r, j, Stop(4 - r.tmpInSize);
    }
    StoredWord(r.tmpIn, s, pos + j);
    r, act := DecodeBlockHeader(k, r, Word32(r.tmpIn, 0), dstFull || j == |src|, goal, h, s, pos + j);
  }

  lemma HeaderRests(c: Ctx)
    ensures c.stage.StoreBlockHeader? && c.tmpInSize < 4 ==> Rests(c, 4 - c.tmpInSize)
    ensures c.stage.StoreFrameHeader? && c.tmpInSize < c.tmpInTarget ==> Rests(c, c.tmpInTarget - c.tmpInSize + 4)
  {
  }

  // Four buffered bytes are the word just taken from the stream.
  lemma StoredWord(buf: Bytes, s: Bytes, at: nat)
    requires Buffered(buf, 4, s, at)
    ensures 4 <= at <= |s| && |buf| >= 4 && Word32(buf, 0) == Word32(s, at - 4)
  {
    WordAt(buf[..4], s, at - 4, 0);
    assert buf[..4][0..4] == buf[0..4];
  }

  // ---------------------------------------------------------------- the checksum of a stored block

  method BlockChecksumStep(k: Codec, c: Ctx, src: Bytes, i: nat, ghost goal: Frame, ghost h: Bytes, ghost s: Bytes, ghost pos: nat)
    returns (r: Ctx, j: nat, act: Act)
    requires c.stage.GetBlockChecksum? && i <= |src| && Chunk(src, s, pos) && Inv(k, goal, c, h, s, pos + i)
    ensures Stepped(k, goal, c, i, r, h, j, act, src, s, pos)
    ensures act.Stop? ==> j == |src| && Rests(r, act.hint)
    ensures !act.Fail? ==> BlockStage(c, r) && !CBlockStage(r.stage)
  {
    hide Inv, ReadBlocks, ReadBlockSum, Core, Put, Word32, Buffered, Follows;
    FollowsBad(goal, |h|);
    InvInfo(k, goal, c, h, s, pos + i);
    BlockChecksumInv(k, goal, c, h, s, pos + i);
    CoreFacts(c, h);
    var crc: nat;
    if |src| - i >= 4 && c.tmpInSize == 0 {
      WordAt(src, s, pos, i);
      crc := Word32(src, i);
      r, j := c, i + 4;
      BlockSumIs(k, c.info, s, pos + i, c.fed, h);
    } else {
      var header, n := Take(c.header, c.tmpInSize, 4 - c.tmpInSize, src, i, s, pos);
      r, j := c.(header := header, tmpInSize := c.tmpInSize + n), i + n;
      CoreKeeps(c, r, h);
      if r.tmpInSize < 4 {
        BlockChecksumInv(k, goal, r, h, s, pos + j);
        return r, j, Stop(1);
      }
      StoredWord(header, s, pos + j);
      crc := Word32(header, 0);
      BlockSumIs(k, c.info, s, pos + j - 4, c.fed, h);
    }
    if crc != k.xxh(c.fed) {
      return r, j, Fail;
    }
    ghost var q := r;
    r := r.(stage := GetBlockHeader);
    CoreKeeps(q, r, h);
    BlockHeaderInv(k, goal, r, h, s, pos + j);
    act := Again;
  }

  lemma BlockSumIs(k: Codec, f: Info, s: Bytes, at: nat, fed: Bytes, h: Bytes)
    requires InfoOk(f) && f.blockSum && at + 4 <= |s|
    ensures ReadBlockSum(k, f, s, at, fed, h) == if Word32(s, at) != k.xxh(fed) then Bad else ReadBlocks(k, f, s, at + 4, h)
  {
    hide ReadBlocks, Word32;
  }

  // ---------------------------------------------------------------- the end of the frame

  function Reset(c: Ctx): Ctx {
    c.(stage := GetFrameHeader, dict := NoDict, dictSize := 0)
  }

  // A context ready for a new frame.
  ghost predicate Fresh(c: Ctx) {
    c.stage.GetFrameHeader? && AllocOk(c) && c.remaining == 0 && c.dict.NoDict? && c.dictSize == 0
  }

  // The frame ended here with content `h`.
  ghost predicate Ended(goal: Frame, r: Ctx, h: Bytes, at: nat) {
    && Fresh(r) && goal.Complete? && goal.content == h && goal.end == at
    && forall y :: y in goal.doubts ==> y.offset < |h|
  }

  // A step that may also end the frame.
  ghost predicate SteppedOrEnded(k: Codec, goal: Frame, c: Ctx, i: nat, r: Ctx, h: Bytes, j: nat, act: Act,
                                 src: Bytes, s: Bytes, pos: nat)
  {
    if act.Stop? && act.hint == 0 then i <= j <= |src| && Ended(goal, r, h, pos + j)
    else Stepped(k, goal, c, i, r, h, j, act, src, s, pos)
  }

  // The content size has been used up exactly when it was met.
  lemma SizeMet(c: Ctx, h: Bytes)
    requires Core(c, h)
    ensures c.remaining == 0 <==> (c.info.contentSize > 0 ==> |h| % WRAP64 == c.info.contentSize)
  {
    if c.info.contentSize > 0 {
      var n := |h|;
      assert c.info.contentSize < WRAP64;
    }
  }

  // The content checksum that ended at `at`.
  method CheckSuffix(k: Codec, c: Ctx, crc: nat, ghost goal: Frame, ghost h: Bytes, ghost s: Bytes, ghost at: nat)
    returns (r: Ctx, act: Act)
    requires Core(c, h) && c.remaining == 0 && c.info.contentSum && 4 <= at <= |s| && crc == Word32(s, at - 4)
    requires Follows(goal, ReadSuffix(k, c.info, s, at - 4, h), |h|)
    ensures act.Fail? || act == Stop(0)
    ensures act.Fail? ==> goal.Bad?
    ensures act.Stop? ==> Ended(goal, r, h, at)
  {
    hide Word32;
    SizeMet(c, h);
    if crc != k.xxh(c.content) {
      return c, Fail;
    }
    return Reset(c), Stop(0);
  }

  method SuffixStep(k: Codec, c: Ctx, src: Bytes, i: nat, ghost goal: Frame, ghost h: Bytes, ghost s: Bytes, ghost pos: nat)
    returns (r: Ctx, j: nat, act: Act)
    requires c.stage.GetSuffix? && i <= |src| && Chunk(src, s, pos) && Inv(k, goal, c, h, s, pos + i)
    ensures SteppedOrEnded(k, goal, c, i, r, h, j, act, src, s, pos)
    ensures act.Stop? ==> act.hint == 0
    ensures act.Again? ==> r.stage.StoreSuffix?
  {
    hide Inv, Word32;
    InvInfo(k, goal, c, h, s, pos + i);
    SuffixInv(k, goal, c, h, s, pos + i);
    SizeMet(c, h);
    if c.remaining != 0 {
      return c, i, Fail;
    }
    if !c.info.contentSum {
      return Reset(c), i, Stop(0);
    }
    if |src| - i < 4 {
      r := c.(tmpInSize := 0, stage := StoreSuffix);
      StoreSuffixInv(k, goal, r, h, s, pos + i);
      return r, i, Again;
    }
    WordAt(src, s, pos, i);
    j := i + 4;
    r, act := CheckSuffix(k, c, Word32(src, i), goal, h, s, pos + j);
  }

  method StoreSuffixStep(k: Codec, c: Ctx, src: Bytes, i: nat, ghost goal: Frame, ghost h: Bytes, ghost s: Bytes, ghost pos: nat)
    returns (r: Ctx, j: nat, act: Act)
    requires c.stage.StoreSuffix? && i <= |src| && Chunk(src, s, pos) && Inv(k, goal, c, h, s, pos + i)
    ensures SteppedOrEnded(k, goal, c, i, r, h, j, act, src, s, pos)
    ensures !act.Again?
    ensures act.Stop? ==> act.hint == 0 || (j == |src| && r.stage.StoreSuffix? && Rests(r, act.hint))
  {
    hide Inv, Word32, Core, ReadSuffix, Ended, Buffered, Follows, Chunk;
    InvInfo(k, goal, c, h, s, pos + i);
    StoreSuffixInv(k, goal, c, h, s, pos + i);
    CoreFacts(c, h);
    r, j := TakeIn(c, 4 - c.tmpInSize, src, i, h, s, pos);
    if r.tmpInSize < 4 {
      StoreSuffixInv(k, goal, r, h, s, pos + j);
      return r, j, Stop(4 - r.tmpInSize);
    }
    StoredWord(r.tmpIn, s, pos + j);
    r, act := CheckSuffix(k, r, Word32(r.tmpIn, 0), goal, h, s, pos + j);
  }

  // ---------------------------------------------------------------- skippable frames

  lemma SkipInv(k: Codec, goal: Frame, c: Ctx, s: Bytes, at: nat)
    requires c.stage.SkipSkippable?
    ensures Inv(k, goal, c, [], s, at) <==>
      AllocOk(c) && c.remaining == 0 && at <= |s| && Follows(goal, Skip(s, at, c.tmpInTarget), 0)
  {
    hide Skip, Follows;
  }

  lemma SFrameFacts(k: Codec, goal: Frame, c: Ctx, s: Bytes, at: nat)
    requires (c.stage.GetSFrameSize? || c.stage.StoreSFrameSize?) && Inv(k, goal, c, [], s, at)
    ensures AllocOk(c) && c.remaining == 0 && at <= |s|
    ensures c.stage.StoreSFrameSize? ==> 4 <= c.tmpInSize < 8 == c.tmpInTarget && c.tmpInSize - 4 <= at
    ensures c.stage.StoreSFrameSize? ==> c.header[4..c.tmpInSize] == s[at - (c.tmpInSize - 4)..at]
    ensures Follows(goal, ReadSkippable(s, if c.stage.GetSFrameSize? then at else at - (c.tmpInSize - 4)), 0)
  {
    hide ReadSkippable, Follows;
  }

  // The size of a skippable frame, whose last byte was at `at - 1`.
  method DecodeSFrameSize(k: Codec, c: Ctx, size: nat, ghost goal: Frame, ghost s: Bytes, ghost at: nat) returns (r: Ctx)
    requires AllocOk(c) && c.remaining == 0 && 4 <= at <= |s| && size == Word32(s, at - 4)
    requires Follows(goal, ReadSkippable(s, at - 4), 0)
    ensures r == c.(info := c.info.(contentSize := size), tmpInTarget := size, stage := SkipSkippable)
    ensures Inv(k, goal, r, [], s, at)
  {
    hide Inv, Word32, Follows;
    r := c.(info := c.info.(contentSize := size), tmpInTarget := size, stage := SkipSkippable);
    SkipInv(k, goal, r, s, at);
  }

  method SFrameSizeStep(k: Codec, c: Ctx, src: Bytes, i: nat, ghost goal: Frame, ghost s: Bytes, ghost pos: nat)
    returns (r: Ctx, j: nat, act: Act)
    requires c.stage.GetSFrameSize? || c.stage.StoreSFrameSize?
    requires i <= |src| && Chunk(src, s, pos) && Inv(k, goal, c, [], s, pos + i)
    ensures Stepped(k, goal, c, i, r, [], j, act, src, s, pos)
    ensures act.Stop? ==> j == |src| && Rests(r, act.hint)
    ensures !act.Fail? && HeaderStage(r.stage) && r.dict == c.dict && r.dictSize == c.dictSize
  {
    hide Inv, Word32, ReadSkippable, Follows;
    SFrameFacts(k, goal, c, s, pos + i);
    if c.stage.StoreSFrameSize? {
      r, j, act := StoreSFrameSizeStep(k, c, src, i, goal, s, pos);
    } else if |src| - i >= 4 {
      WordAt(src, s, pos, i);
      r := DecodeSFrameSize(k, c, Word32(src, i), goal, s, pos + i + 4);
      j, act := i + 4, Again;
    } else {
      r := c.(tmpInSize := 4, tmpInTarget := 8, stage := StoreSFrameSize);
      SFrameSizeInv(k, goal, r, s, pos + i);
      j, act := i, Again;
    }
  }

  method StoreSFrameSizeStep(k: Codec, c: Ctx, src: Bytes, i: nat, ghost goal: Frame, ghost s: Bytes, ghost pos: nat)
    returns (r: Ctx, j: nat, act: Act)
    requires c.stage.StoreSFrameSize? && i <= |src| && Chunk(src, s, pos) && Inv(k, goal, c, [], s, pos + i)
    ensures Stepped(k, goal, c, i, r, [], j, act, src, s, pos)
    ensures act.Stop? ==> j == |src| && Rests(r, act.hint)
    ensures !act.Fail? && HeaderStage(r.stage) && r.dict == c.dict && r.dictSize == c.dictSize
  {
    hide Inv, Word32, ReadSkippable, Rests, AllocOk, InBlocks, Chunk, Follows;
    SFrameFacts(k, goal, c, s, pos + i);
    r, j := TakeSize(c, src, i, s, pos);
    if r.tmpInSize < r.tmpInTarget {
      SFrameRests(r);
      SFrameSizeInv(k, goal, r, s, pos + j);
      return r, j, Stop(r.tmpInTarget - r.tmpInSize);
    }
    SizeWord(r.header, s, pos + j - 4);
    r := DecodeSFrameSize(k, r, Word32(r.header, 4), goal, s, pos + j);
    act := Again;
  }

  // More bytes of the size of a skippable frame.
  method TakeSize(c: Ctx, src: Bytes, i: nat, ghost s: Bytes, ghost pos: nat) returns (r: Ctx, j: nat)
    requires AllocOk(c) && i <= |src| && Chunk(src, s, pos) && 4 <= c.tmpInSize < 8 == c.tmpInTarget
    requires c.tmpInSize - 4 <= pos + i <= |s| && c.header[4..c.tmpInSize] == s[pos + i - (c.tmpInSize - 4)..pos + i]
    ensures AllocOk(r) && r == c.(header := r.header, tmpInSize := r.tmpInSize) && |r.header| == MAX_HEADER
    ensures i <= j <= |src| && r.tmpInSize == c.tmpInSize + (j - i) <= 8 && (r.tmpInSize < 8 ==> j == |src|)
    ensures pos + j <= |s| && r.header[4..r.tmpInSize] == s[pos + j - (r.tmpInSize - 4)..pos + j]
  {
    hide Put, Buffered, AllocOk, Chunk;
    AllocHeader(c);
    var header, n := Take(c.header, c.tmpInSize, c.tmpInTarget - c.tmpInSize, src, i, s, pos);
    r, j := c.(header := header, tmpInSize := c.tmpInSize + n), i + n;
    ChunkSlice(src, s, pos, i, j);
    ChunkInside(src, s, pos);
    SizeBytes(c.header, header, c.tmpInSize, src[i..j], s, pos + i);
    assert pos + j - (r.tmpInSize - 4) == pos + i - (c.tmpInSize - 4);
    AllocKeeps(c, r);
  }

  lemma ChunkInside(src: Bytes, s: Bytes, pos: nat)
    requires Chunk(src, s, pos)
    ensures pos + |src| <= |s|
  {
  }

  lemma AllocHeader(c: Ctx)
    requires AllocOk(c)
    ensures |c.header| == MAX_HEADER
  {
  }

  lemma AllocKeeps(c: Ctx, r: Ctx)
    requires AllocOk(c) && r == c.(header := r.header, tmpInSize := r.tmpInSize) && |r.header| == |c.header|
    ensures AllocOk(r)
  {
  }

  lemma SFrameRests(c: Ctx)
    requires c.stage.StoreSFrameSize? && c.tmpInSize < c.tmpInTarget
    ensures Rests(c, c.tmpInTarget - c.tmpInSize)
  {
  }

  lemma SizeBytes(before: Bytes, header: Bytes, size: nat, x: Bytes, s: Bytes, at: nat)
    requires 4 <= size && size + |x| <= 8 <= |before| && header == Put(before, size, x)
    requires size - 4 <= at && at + |x| <= |s| && before[4..size] == s[at - (size - 4)..at] && x == s[at..at + |x|]
    ensures header[4..size + |x|] == s[at - (size - 4)..at + |x|]
  {
    assert header[4..size + |x|] == before[4..size] + x;
    assert s[at - (size - 4)..at + |x|] == s[at - (size - 4)..at] + s[at..at + |x|];
  }

  lemma SizeWord(header: Bytes, s: Bytes, at: nat)
    requires |header| >= 8 && at + 4 <= |s| && header[4..8] == s[at..at + 4]
    ensures Word32(header, 4) == Word32(s, at)
  {
  }

  method SkipStep(k: Codec, c: Ctx, src: Bytes, i: nat, ghost goal: Frame, ghost s: Bytes, ghost pos: nat)
    returns (r: Ctx, j: nat, act: Act)
    requires c.stage.SkipSkippable? && i <= |src| && Chunk(src, s, pos) && Inv(k, goal, c, [], s, pos + i)
    requires c.dict.NoDict? && c.dictSize == 0
    ensures SteppedOrEnded(k, goal, c, i, r, [], j, act, src, s, pos)
    ensures act.Stop? && (act.hint > 0 ==> j == |src| && Rests(r, act.hint))
    ensures r.dict.NoDict? && r.dictSize == 0 && HeaderStage(r.stage)
  {
    hide Inv;
    SkipInv(k, goal, c, s, pos + i);
    var n := Min(c.tmpInTarget, |src| - i);
    r, j := c.(tmpInTarget := c.tmpInTarget - n), i + n;
    if r.tmpInTarget > 0 {
      SkipInv(k, goal, r, s, pos + j);
      return r, j, Stop(r.tmpInTarget);
    }
    return Reset(r), j, Stop(0);
  }

  // ---------------------------------------------------------------- delivering bytes

  // The history, as each stage needs it.
  ghost predicate HistOk(c: Ctx, h: Bytes)
    reads if c.dict.InDst? then {c.dict.buf} else {}
  {
    if HeaderStage(c.stage) then c.dict.NoDict? && c.dictSize == 0
    else if c.stage.GetSuffix? || c.stage.StoreSuffix? then true
    else if c.info.linked then if c.stage.FlushOut? then Flushing(c, h) else Settled(c, h)
    else c.dict.NoDict? && c.dictSize == 0 && c.outPos == 0 && (c.stage.FlushOut? ==> BlockIn(c, h))
  }

  // The meters after `x` was decoded.
  function Metered(c: Ctx, x: Bytes): Ctx {
    c.(content := if c.info.contentSum then c.content + x else c.content,
       remaining := if c.info.contentSize > 0 then (c.remaining - |x|) % WRAP64 else c.remaining)
  }

  lemma CoreMetered(c: Ctx, h: Bytes, x: Bytes)
    requires Core(c, h)
    ensures Core(Metered(c, x), h + x)
  {
    if c.info.contentSize > 0 {
      WrapMinus(c.info.contentSize - |h|, |x|);
    }
  }

  lemma WrapMinus(a: int, b: int)
    ensures (a % WRAP64 - b) % WRAP64 == (a - b) % WRAP64
  {
    var q := a / WRAP64;
    assert a % WRAP64 - b == (a - b) + (-q) * WRAP64;
    WrapMultiple(a - b, -q);
  }

  lemma WrapMultiple(a: int, q: int)
    ensures (a + q * WRAP64) % WRAP64 == a % WRAP64
  {
    var r := a % WRAP64;
    var p := a / WRAP64;
    assert a + q * WRAP64 == (p + q) * WRAP64 + r;
  }

  // Write `x` at dst[d..] and take it into the history.
  method Deliver(c: Ctx, x: Bytes, dst: array<Byte>, d: nat, d0: nat, ghost h: Bytes) returns (r: Ctx)
    requires d0 <= d && d + |x| <= dst.Length && Recent(dst, d0, d, h) && DictSafe(c, dst, d)
    requires Core(c, h) && InfoOk(c.info)
    requires if c.info.linked then Settled(c, h) else c.dict.NoDict? && c.dictSize == 0
    modifies dst
    ensures r == c.(tmpOut := r.tmpOut, dict := r.dict, dictSize := r.dictSize) && |r.tmpOut| == |c.tmpOut|
    ensures if c.info.linked then Settled(r, h + x) else r.dict.NoDict? && r.dictSize == 0
    ensures Recent(dst, d0, d + |x|, h + x) && DictSafe(r, dst, d + |x|)
    ensures Adjacent(c, dst, d) ==> Adjacent(r, dst, d + |x|)
    ensures forall a :: 0 <= a < dst.Length && !(d <= a < d + |x|) ==> dst[a] == old(dst[a])
  {
    hide Exact, Tail, Core;
    CoreFacts(c, h);
    WriteBytes(dst, d, x);
    assert dst[d0..d] == old(dst[d0..d]);
    RecentAfter(dst, d0, d, x, h);
    if c.info.linked {
      assert c.dict.InDst? && c.dict.buf == dst ==>
        dst[c.dict.off..c.dict.off + c.dictSize] == old(dst[c.dict.off..c.dict.off + c.dictSize]);
      r := UpdateDict(c, dst, d, |x|, d0, false, h);
    } else {
      r := c;
    }
  }

  lemma RecentAfter(dst: array<Byte>, d0: nat, d: nat, x: Bytes, h: Bytes)
    requires d0 <= d && d + |x| <= dst.Length && d - d0 <= |h|
    requires dst[d0..d] == h[|h| - (d - d0)..] && dst[d..d + |x|] == x
    ensures Recent(dst, d0, d + |x|, h + x)
  {
    RecentGrows(dst[d0..d], h, x);
    assert dst[d0..d + |x|] == dst[d0..d] + dst[d..d + |x|];
  }

  // A stored block, read in two parts.
  lemma DirectSplit(k: Codec, f: Info, s: Bytes, at: nat, m: nat, n: nat, fed: Bytes, h: Bytes)
    requires InfoOk(f) && at + m <= |s|
    ensures ReadDirect(k, f, s, at, m + n, fed, h)
         == ReadDirect(k, f, s, at + m, n, fed + s[at..at + m], h + s[at..at + m])
  {
    hide ReadBlockSum;
    if at + m + n <= |s| {
      assert s[at..at + m + n] == s[at..at + m] + s[at + m..at + m + n];
      assert fed + s[at..at + m] + s[at + m..at + m + n] == fed + s[at..at + m + n];
      assert h + s[at..at + m] + s[at + m..at + m + n] == h + s[at..at + m + n];
    }
  }

  lemma DirectDone(k: Codec, f: Info, s: Bytes, at: nat, n: nat, fed: Bytes, h: Bytes)
    requires InfoOk(f) && at + n <= |s|
    ensures ReadDirect(k, f, s, at, n, fed, h) == ReadBlockSum(k, f, s, at + n, fed + s[at..at + n], h + s[at..at + n])
  {
  }

  // Without block checksums it does not matter what one would cover.
  lemma Unchecked(k: Codec, f: Info, s: Bytes, at: nat, n: nat, fed: Bytes, other: Bytes, h: Bytes)
    requires InfoOk(f) && !f.blockSum
    ensures ReadDirect(k, f, s, at, n, fed, h) == ReadDirect(k, f, s, at, n, other, h)
    ensures ReadBlockSum(k, f, s, at, fed, h) == ReadBlocks(k, f, s, at, h)
  {
    hide ReadBlocks;
  }

  // Writing at `d` and above spares the history, as long as it is needed.
  ghost predicate Untouched(c: Ctx, dst: array<Byte>, d: nat) {
    c.stage.GetSuffix? || c.stage.StoreSuffix? || DictSafe(c, dst, d)
  }

  // What the deliveries of one stage promise.
  ghost predicate Delivered(k: Codec, goal: Frame, r: Ctx, h: Bytes, s: Bytes, at: nat, dst: array<Byte>, d0: nat, e: nat)
    reads dst, if r.dict.InDst? then {r.dict.buf} else {}
  {
    Inv(k, goal, r, h, s, at) && HistOk(r, h) && Untouched(r, dst, e) && Recent(dst, d0, e, h)
  }

  // ---------------------------------------------------------------- blocks in doubt

  // The history ends right in front of dst[d..], as long as it is needed.
  ghost predicate Straight(c: Ctx, dst: array<Byte>, d: nat) {
    c.stage.GetSuffix? || c.stage.StoreSuffix? || Adjacent(c, dst, d)
  }

  // No block in doubt starts between `lo` and `hi` in the content.
  ghost predicate Clear(goal: Frame, lo: nat, hi: nat) {
    goal.Complete? ==> forall y :: y in goal.doubts ==> !(lo <= y.offset < hi)
  }

  // Every block in doubt that starts there had its full room before `limit`.
  ghost predicate Roomy(goal: Frame, lo: nat, hi: nat, limit: nat) {
    goal.Complete? ==> forall y :: y in goal.doubts && lo <= y.offset < hi ==> y.offset + y.size <= limit
  }

  // A frame refused at `n` in the content: it is bad, or a block in doubt starts there and, where
  // `sure`, its full room did not fit before `limit`.
  ghost predicate Refused(goal: Frame, n: nat, limit: nat, sure: bool) {
    goal.Bad? || exists size :: Doubt(n, size) in goal.doubts && (sure ==> n + size > limit)
  }

  lemma RoomyJoin(goal: Frame, lo: nat, mid: nat, hi: nat, limit: nat)
    requires Roomy(goal, lo, mid, limit) && Roomy(goal, mid, hi, limit)
    ensures Roomy(goal, lo, hi, limit)
  {
  }

  lemma ClearIsRoomy(goal: Frame, lo: nat, hi: nat, limit: nat)
    requires Clear(goal, lo, hi) || hi <= lo
    ensures Roomy(goal, lo, hi, limit)
  {
  }

  // A stored block is not in doubt.
  lemma StoredClear(k: Codec, goal: Frame, f: Info, s: Bytes, at: nat, n: nat, fed: Bytes, h: Bytes)
    requires InfoOk(f) && Follows(goal, ReadDirect(k, f, s, at, n, fed, h), |h|)
    ensures Clear(goal, |h|, |h| + n)
  {
    hide ReadDirect;
    if goal.Complete? {
      DirectLeft(k, f, s, at, n, fed, h);
    }
  }

  // After a block that decoded to `x` in mode `m`.
  lemma AfterBlock(k: Codec, goal: Frame, f: Info, s: Bytes, at: nat, block: Bytes, m: Mode, h: Bytes, x: Bytes)
    requires CodecOk(k) && InfoOk(f) && Follows(goal, ReadDecoded(k, f, s, at, block, h), |h|)
    requires k.decode(block, History(f, h), BlockSizeOf(f.blockSizeID), m) == Some(x)
    ensures Follows(goal, ReadBlocks(k, f, s, at, h + x), |h + x|)
    ensures Roomy(goal, |h|, |h + x|, |h| + BlockSizeOf(f.blockSizeID))
    ensures m.External? || History(f, h) == [] ==> Clear(goal, |h|, |h + x|)
  {
    hide ReadBlocks, BlockSizeOf;
    var cap := BlockSizeOf(f.blockSizeID);
    assert Nested(k, block, History(f, h), cap);
    if goal.Complete? {
      BlocksLeft(k, f, s, at, h + x);
    }
  }

  lemma RefusedBlock(k: Codec, goal: Frame, f: Info, s: Bytes, at: nat, block: Bytes, m: Mode, h: Bytes)
    requires CodecOk(k) && InfoOk(f) && Follows(goal, ReadDecoded(k, f, s, at, block, h), |h|)
    requires k.decode(block, History(f, h), BlockSizeOf(f.blockSizeID), m).None?
    ensures goal.Bad? || (m.External? && Doubt(|h|, BlockSizeOf(f.blockSizeID)) in goal.doubts)
  {
    hide ReadBlocks, BlockSizeOf, CodecOk;
  }

  method CopyDirectStep(k: Codec, c: Ctx, src: Bytes, i: nat, dst: array<Byte>, d: nat, d0: nat, d1: nat,
                        ghost goal: Frame, ghost h: Bytes, ghost s: Bytes, ghost pos: nat)
    returns (r: Ctx, j: nat, e: nat, act: Act, ghost g: Bytes)
    requires c.stage.CopyDirect? && i <= |src| && Chunk(src, s, pos) && d0 <= d <= d1 <= dst.Length
    requires Delivered(k, goal, c, h, s, pos + i, dst, d0, d)
    modifies dst
    ensures i <= j <= |src| && d <= e <= d1 && h <= g && |g| == |h| + (e - d)
    ensures !act.Fail? && Delivered(k, goal, r, g, s, pos + j, dst, d0, e)
    ensures !r.stage.FlushOut? && !CBlockStage(r.stage) && Clear(goal, |h|, |g|) && (Adjacent(c, dst, d) ==> Adjacent(r, dst, e))
    ensures act.Again? ==> j > i
    ensures j == i ==> e - d + Pending(r) <= Pending(c)
    ensures act.Stop? ==> (j == |src| || (e == d1 && Waiting(r))) && Rests(r, act.hint)
    ensures forall a :: 0 <= a < dst.Length && !(d <= a < e) ==> dst[a] == old(dst[a])
  {
    hide Inv, Settled, Flushing, Recent, Core, ReadDirect, ReadBlockSum, Metered, Follows, Clear, DictSafe, Adjacent;
    InvInfo(k, goal, c, h, s, pos + i);
    CopyDirectInv(k, goal, c, h, s, pos + i);
    StoredClear(k, goal, c.info, s, pos + i, c.tmpInTarget, if c.info.blockSum then c.fed else [], h);
    var n := Min(c.tmpInTarget, Min(|src| - i, d1 - d));
    var x := src[i..i + n];
    ChunkSlice(src, s, pos, i, i + n);
    var p := Deliver(c, x, dst, d, d0, h);
    var q := Metered(p.(fed := if c.info.blockSum then c.fed + x else c.fed), x);
    j, e, g := i + n, d + n, h + x;
    CoreDelivered(c, p.(fed := if c.info.blockSum then c.fed + x else c.fed), h, x);
    r, act := DirectNext(k, c, q, n, x, goal, h, s, pos + i);
    SettledSame(p, r, g);
    SafeSame(p, r, dst, e);
    ClearLess(goal, |h|, |g|, |h| + c.tmpInTarget);
  }

  lemma CoreDelivered(c: Ctx, p: Ctx, h: Bytes, x: Bytes)
    requires Core(c, h) && |p.tmpOut| == |c.tmpOut|
    requires p == c.(tmpOut := p.tmpOut, dict := p.dict, dictSize := p.dictSize, fed := p.fed)
    ensures Core(Metered(p, x), h + x)
    ensures Metered(p, x) == p.(content := Metered(p, x).content, remaining := Metered(p, x).remaining)
  {
    hide Core;
    CoreMetered(c, h, x);
    CoreKeeps(Metered(c, x), Metered(p, x), h + x);
  }

  lemma ClearLess(goal: Frame, lo: nat, hi: nat, far: nat)
    requires Clear(goal, lo, far) && hi <= far
    ensures Clear(goal, lo, hi)
  {
  }

  lemma SettledSame(q: Ctx, r: Ctx, g: Bytes)
    requires r.dict == q.dict && r.dictSize == q.dictSize && r.tmpOut == q.tmpOut
    ensures Settled(q, g) <==> Settled(r, g)
  {
  }

  // After `n` bytes of a stored block: its end, or more to come.
  method DirectNext(k: Codec, c: Ctx, q: Ctx, n: nat, x: Bytes, ghost goal: Frame, ghost h: Bytes, ghost s: Bytes, ghost at: nat)
    returns (r: Ctx, act: Act)
    requires c.stage.CopyDirect? && InfoOk(c.info) && q.info == c.info && q.tmpInTarget == c.tmpInTarget && q.stage == c.stage
    requires q.maxBlock == c.maxBlock && q.fed == (if c.info.blockSum then c.fed + x else c.fed)
    requires n <= c.tmpInTarget && |x| == n && at + n <= |s| && x == s[at..at + n]
    requires 1 <= c.tmpInTarget <= c.maxBlock && Core(q, h + x)
    requires Follows(goal, ReadDirect(k, c.info, s, at, c.tmpInTarget, if c.info.blockSum then c.fed else [], h), |h|)
    ensures r == q.(stage := r.stage, tmpInSize := r.tmpInSize, tmpInTarget := r.tmpInTarget)
    ensures Inv(k, goal, r, h + x, s, at + n)
    ensures r.stage.CopyDirect? || r.stage.GetBlockChecksum? || r.stage.GetBlockHeader?
    ensures act.Again? ==> n == c.tmpInTarget
    ensures !act.Again? ==> act.Stop? && n < c.tmpInTarget && r.stage.CopyDirect? && Rests(r, act.hint)
  {
    hide Inv, Core, ReadDirect, ReadBlockSum, ReadBlocks, Follows;
    ghost var f := c.info;
    ghost var fed := if f.blockSum then c.fed else [];
    FollowsLess(goal, ReadDirect(k, f, s, at, c.tmpInTarget, fed, h), |h|, |h + x|);
    DirectSplit(k, f, s, at, n, c.tmpInTarget - n, fed, h);
    DirectDone(k, f, s, at, n, fed, h);
    if !f.blockSum {
      Unchecked(k, f, s, at + n, c.tmpInTarget - n, fed + x, [], h + x);
    }
    if n == c.tmpInTarget {
      if c.info.blockSum {
        r := q.(tmpInSize := 0, stage := GetBlockChecksum);
        CoreKeeps(q, r, h + x);
        BlockChecksumInv(k, goal, r, h + x, s, at + n);
      } else {
        r := q.(stage := GetBlockHeader);
        CoreKeeps(q, r, h + x);
        BlockHeaderInv(k, goal, r, h + x, s, at + n);
      }
      return r, Again;
    }
    r := q.(tmpInTarget := c.tmpInTarget - n);
    CoreKeeps(q, r, h + x);
    CopyDirectInv(k, goal, r, h + x, s, at + n);
    act := Stop(r.tmpInTarget + CrcSize(c.info) + 4);
  }

  // ---------------------------------------------------------------- compressed blocks

  // The whole of a compressed block, its checksum included, from the input or from the buffer.
  datatype Fetch = NotYet(act: Act) | Block(data: Bytes)

  // A complete block that ended at `at`.
  ghost predicate Fetched(k: Codec, goal: Frame, c: Ctx, data: Bytes, h: Bytes, s: Bytes, at: nat) {
    && Core(c, h) && InfoOk(c.info) && CrcSize(c.info) < |data| <= c.maxBlock + CrcSize(c.info)
    && |data| <= at <= |s| && data == s[at - |data|..at]
    && Follows(goal, ReadPacked(k, c.info, s, at - |data|, |data|, h), |h|)
  }

  method GetCBlockStep(k: Codec, c: Ctx, src: Bytes, i: nat, ghost goal: Frame, ghost h: Bytes, ghost s: Bytes, ghost pos: nat)
    returns (r: Ctx, j: nat, fetch: Fetch)
    requires c.stage.GetCBlock? && i <= |src| && Chunk(src, s, pos) && Inv(k, goal, c, h, s, pos + i)
    ensures i <= j <= |src| && BlockStage(c, r)
    ensures fetch.NotYet? ==> fetch.act == Again && Stepped(k, goal, c, i, r, h, j, Again, src, s, pos)
    ensures fetch.Block? ==> j > i && Fetched(k, goal, r, fetch.data, h, s, pos + j)
  {
    hide Inv, ReadPacked, Core, Follows;
    InvInfo(k, goal, c, h, s, pos + i);
    CBlockInv(k, goal, c, h, s, pos + i);
    if |src| - i < c.tmpInTarget {
      r := c.(tmpInSize := 0, stage := StoreCBlock);
      CoreKeeps(c, r, h);
      StoreCBlockInv(k, goal, r, h, s, pos + i);
      return r, i, NotYet(Again);
    }
    ChunkSlice(src, s, pos, i, i + c.tmpInTarget);
    return c, i + c.tmpInTarget, Block(src[i..i + c.tmpInTarget]);
  }

  method StoreCBlockStep(k: Codec, c: Ctx, src: Bytes, i: nat, ghost goal: Frame, ghost h: Bytes, ghost s: Bytes, ghost pos: nat)
    returns (r: Ctx, j: nat, fetch: Fetch)
    requires c.stage.StoreCBlock? && i <= |src| && Chunk(src, s, pos) && Inv(k, goal, c, h, s, pos + i)
    ensures i <= j <= |src| && BlockStage(c, r)
    ensures fetch.NotYet? ==> fetch.act.Stop? && j == |src| && r.stage.StoreCBlock? && Rests(r, fetch.act.hint)
    ensures fetch.NotYet? ==> Inv(k, goal, r, h, s, pos + j)
    ensures fetch.Block? ==> j > i && Fetched(k, goal, r, fetch.data, h, s, pos + j)
  {
    hide Inv, ReadPacked, Core, Follows, Chunk;
    InvInfo(k, goal, c, h, s, pos + i);
    StoreCBlockInv(k, goal, c, h, s, pos + i);
    CoreFacts(c, h);
    r, j := TakeIn(c, c.tmpInTarget - c.tmpInSize, src, i, h, s, pos);
    if r.tmpInSize < r.tmpInTarget {
      StoreCBlockInv(k, goal, r, h, s, pos + j);
      return r, j, NotYet(Stop(r.tmpInTarget - r.tmpInSize + CrcSize(r.info) + 4));
    }
    fetch := Block(r.tmpIn[..r.tmpInTarget]);
  }

  // The reference reader at a block whose bytes are known.
  lemma PackedIs(k: Codec, f: Info, s: Bytes, at: nat, data: Bytes, h: Bytes)
    requires InfoOk(f) && CrcSize(f) < |data| && at + |data| <= |s| && data == s[at..at + |data|]
    ensures var block := data[..|data| - CrcSize(f)];
      ReadPacked(k, f, s, at, |data|, h)
      == if f.blockSum && Word32(data, |data| - 4) != k.xxh(block) then Bad
         else ReadDecoded(k, f, s, at + |data|, block, h)
  {
    hide ReadDecoded, ReadPacked, Word32;
    var n := |data| - CrcSize(f);
    SliceOfSlice(s, at, |data|, 0, n);
    PackedUnfold(k, f, s, at, |data|, data[0..n], h);
    assert data[..n] == data[0..n];
    if f.blockSum {
      WordAt(data, s, at, |data| - 4);
    }
  }

  lemma PackedUnfold(k: Codec, f: Info, s: Bytes, at: nat, size: nat, block: Bytes, h: Bytes)
    requires InfoOk(f) && CrcSize(f) < size && at + size <= |s| && block == s[at..at + size - CrcSize(f)]
    ensures ReadPacked(k, f, s, at, size, h)
         == if f.blockSum && Word32(s, at + size - 4) != k.xxh(block) then Bad
            else ReadDecoded(k, f, s, at + size, block, h)
  {
    hide ReadDecoded, Word32;
  }

  // The checksum of a compressed block.
  method CheckBlock(k: Codec, c: Ctx, data: Bytes, ghost goal: Frame, ghost h: Bytes, ghost s: Bytes, ghost at: nat)
    returns (block: Bytes, ok: bool)
    requires Fetched(k, goal, c, data, h, s, at)
    ensures !ok ==> goal.Bad?
    ensures ok ==> Follows(goal, ReadDecoded(k, c.info, s, at, block, h), |h|)
  {
    hide ReadPacked, ReadDecoded, Core, Word32, Follows;
    CoreFacts(c, h);
    FollowsBad(goal, |h|);
    PackedIs(k, c.info, s, at - |data|, data, h);
    var size := |data| - CrcSize(c.info);
    block := data[..size];
    ok := !c.info.blockSum || Word32(data, size) == k.xxh(block);
  }

  // The dictionary handed to the block decoder: cut to 64 KB when its size might not fit an int.
  function DictFor(c: Ctx): Bytes
    requires c.dict.InDst? ==> c.dict.off + c.dictSize <= c.dict.buf.Length
    requires c.dict.InTmp? ==> c.dictSize <= |c.tmpOut|
    reads if c.dict.InDst? then {c.dict.buf} else {}
  {
    var d := DictBytes(c);
    if !c.dict.NoDict? && c.dictSize > 0x4000_0000 then d[|d| - KB64..] else d
  }

  lemma DictForTail(c: Ctx, h: Bytes)
    requires Settled(c, h)
    ensures Tail(DictFor(c), h) && Tail(h, DictFor(c))
  {
    hide Tail, Exact;
    SettledTail(c, h);
    if !c.dict.NoDict? && c.dictSize > 0x4000_0000 {
      TailOfEnd(DictBytes(c), h, KB64);
      TailToEnd(h, DictBytes(c), KB64);
    }
  }

  lemma TailToEnd(h: Bytes, d: Bytes, n: nat)
    requires Tail(h, d) && KB64 <= n <= |d|
    ensures Tail(h, d[|d| - n..])
  {
    var e := d[|d| - n..];
    assert e[|e| - KB64..] == d[|d| - KB64..];
  }

  // Decoding with the dictionary at hand gives what the reference reader gets from the history.
  lemma DecodedRight(k: Codec, c: Ctx, block: Bytes, d: Bytes, h: Bytes, m: Mode)
    requires CodecOk(k) && Tail(d, History(c.info, h)) && Tail(History(c.info, h), d)
    ensures k.decode(block, d, c.maxBlock, m) == k.decode(block, History(c.info, h), c.maxBlock, m)
    ensures k.decode(block, d, c.maxBlock, m).Some? ==> |k.decode(block, d, c.maxBlock, m).value| <= c.maxBlock
  {
    hide Tail, Nested;
  }

  ghost predicate BeforeDecode(c: Ctx, h: Bytes)
    reads if c.dict.InDst? then {c.dict.buf} else {}
  {
    if c.info.linked then Settled(c, h) else c.dict.NoDict? && c.dictSize == 0
  }

  lemma BeforeTail(c: Ctx, h: Bytes)
    requires BeforeDecode(c, h)
    ensures c.dict.InDst? ==> c.dict.off + c.dictSize <= c.dict.buf.Length
    ensures c.dict.InTmp? ==> c.dictSize <= |c.tmpOut|
    ensures Tail(DictFor(c), History(c.info, h)) && Tail(History(c.info, h), DictFor(c))
  {
    hide Tail, Exact;
    if c.info.linked {
      DictForTail(c, h);
    } else {
      EmptyTail();
    }
  }

  // Writing at `d` and above spares what was delivered and the history.
  method Overrun(c: Ctx, junk: Bytes, dst: array<Byte>, d: nat, d0: nat, ghost h: Bytes)
    requires d0 <= d && d + |junk| <= dst.Length && Recent(dst, d0, d, h) && DictSafe(c, dst, d) && BeforeDecode(c, h)
    modifies dst
    ensures Recent(dst, d0, d, h) && BeforeDecode(c, h)
    ensures forall a :: 0 <= a < dst.Length && !(d <= a < d + |junk|) ==> dst[a] == old(dst[a])
  {
    hide Exact, Tail;
    WriteBytes(dst, d, junk);
    assert dst[d0..d] == old(dst[d0..d]);
    assert c.info.linked && c.dict.InDst? && c.dict.buf == dst ==>
      dst[c.dict.off..c.dict.off + c.dictSize] == old(dst[c.dict.off..c.dict.off + c.dictSize]);
  }

  // What decoding straight into dst[d..] writes there: the block or, when there is none, nothing of
  // use, with any bytes behind it as far as the capacity of the block decoder reaches.
  method PutBlock(c: Ctx, decoded: Option<Bytes>, dst: array<Byte>, d: nat, d0: nat, ghost h: Bytes) returns (p: Ctx)
    requires d0 <= d && d + c.maxBlock <= dst.Length && Recent(dst, d0, d, h) && DictSafe(c, dst, d)
    requires Core(c, h) && InfoOk(c.info) && BeforeDecode(c, h)
    requires decoded.Some? ==> |decoded.value| <= c.maxBlock
    modifies dst
    ensures p == c.(tmpOut := p.tmpOut, dict := p.dict, dictSize := p.dictSize) && |p.tmpOut| == |c.tmpOut|
    ensures decoded.Some? ==>
              var x := decoded.value;
              && BeforeDecode(p, h + x) && Recent(dst, d0, d + |x|, h + x) && DictSafe(p, dst, d + |x|)
              && (Adjacent(c, dst, d) ==> Adjacent(p, dst, d + |x|))
    ensures forall a :: 0 <= a < dst.Length && !(d <= a < d + c.maxBlock) ==> dst[a] == old(dst[a])
  {
    hide Core, Settled, Recent, DictSafe, Adjacent;
    var junk := AnyBytes(c.maxBlock);
    Overrun(c, junk, dst, d, d0, h);
    p := c;
    if decoded.Some? {
      p := Deliver(c, decoded.value, dst, d, d0, h);
    }
  }

  // Decode straight into the caller's buffer.
  method UnpackToDst(k: Codec, c: Ctx, block: Bytes, dst: array<Byte>, d: nat, d0: nat, d1: nat,
                     ghost goal: Frame, ghost h: Bytes, ghost s: Bytes, ghost at: nat)
    returns (r: Ctx, e: nat, ok: bool, ghost g: Bytes)
    requires CodecOk(k) && Core(c, h) && InfoOk(c.info) && BeforeDecode(c, h) && at <= |s|
    requires d0 <= d && d + c.maxBlock <= d1 <= dst.Length && Recent(dst, d0, d, h) && DictSafe(c, dst, d)
    requires !c.info.linked ==> c.outPos == 0
    requires Follows(goal, ReadDecoded(k, c.info, s, at, block, h), |h|)
    modifies dst
    ensures !ok ==> e == d && (goal.Bad? || (Doubt(|h|, c.maxBlock) in goal.doubts && !Adjacent(c, dst, d)))
    ensures d <= e <= d1 && h <= g && |g| == |h| + (e - d)
    ensures ok ==> Delivered(k, goal, r, g, s, at, dst, d0, e) && r.stage.GetBlockHeader?
    ensures ok && Adjacent(c, dst, d) ==> Adjacent(r, dst, e) && Roomy(goal, |h|, |g|, |h| + c.maxBlock)
    ensures forall a :: 0 <= a < dst.Length && !(d <= a < d + c.maxBlock) ==> dst[a] == old(dst[a])
  {
    hide Inv, Core, ReadDecoded, ReadBlocks, Settled, Recent, Tail, Follows, Roomy, Clear, CodecOk, DictSafe, Metered;
    CoreFacts(c, h);
    BeforeTail(c, h);
    var dict := DictFor(c);
    var mode := if Adjacent(c, dst, d) then Prefix else External;
    DecodedRight(k, c, block, dict, h, mode);
    var decoded := k.decode(block, dict, c.maxBlock, mode);
    var p := PutBlock(c, decoded, dst, d, d0, h);
    if decoded.None? {
      RefusedBlock(k, goal, c.info, s, at, block, mode, h);
      return c, d, false, h;
    }
    var x := decoded.value;
    AfterBlock(k, goal, c.info, s, at, block, mode, h, x);
    r := Metered(p, x).(stage := GetBlockHeader);
    e, ok, g := d + |x|, true, h + x;
    CoreDelivered(c, p, h, x);
    CoreKeeps(Metered(p, x), r, g);
    BlockHeaderInv(k, goal, r, g, s, at);
    SettledSame(p, r, g);
    SafeSame(p, r, dst, e);
  }

  // Decode into tmpOut, from where it is flushed.
  method UnpackToTmp(k: Codec, c: Ctx, block: Bytes, ghost goal: Frame, ghost h: Bytes, ghost s: Bytes, ghost at: nat)
    returns (r: Ctx, ok: bool)
    requires CodecOk(k) && Core(c, h) && InfoOk(c.info) && BeforeDecode(c, h) && at <= |s|
    requires !c.info.linked ==> c.outPos == 0
    requires Follows(goal, ReadDecoded(k, c.info, s, at, block, h), |h|)
    ensures !ok ==> goal.Bad? || Doubt(|h|, c.maxBlock) in goal.doubts
    ensures ok ==> r.stage.FlushOut? && Inv(k, goal, r, h, s, at) && HistOk(r, h)
    ensures ok ==> r.dict == c.dict && r.dictSize <= c.dictSize && (r.dictSize < c.dictSize ==> c.dict.InTmp?)
    ensures ok && (c.dictSize == 0 || c.dict.InDst?) ==> Clear(goal, |h|, |h| + Pending(r))
  {
    hide Inv, Core, ReadDecoded, ReadBlocks, Settled, Tail, Flushing, Put, Follows, Roomy, Clear, CodecOk;
    CoreFacts(c, h);
    var p := c;
    if c.info.linked {
      p := PrepareTmp(c, h);
    }
    BeforeTail(p, h);
    var dict := DictFor(p);
    var mode := if p.dictSize == 0 || p.dict.InTmp? then Prefix else External;
    DecodedRight(k, p, block, dict, h, mode);
    var decoded := k.decode(block, dict, c.maxBlock, mode);
    if decoded.None? {
      RefusedBlock(k, goal, c.info, s, at, block, mode, h);
      return c, false;
    }
    var x := decoded.value;
    AfterBlock(k, goal, c.info, s, at, block, mode, h, x);
    if c.dictSize == 0 {
      NoHistoryYet(c, h);
    }
    var junk := AnyBytes(c.maxBlock);
    ghost var q := p;
    p := p.(tmpOut := Put(p.tmpOut, p.outPos, junk));
    TmpOverrun(q, p, junk, h);
    r := Metered(p, x).(tmpOut := Put(p.tmpOut, p.outPos, x), outSize := |x|, outStart := 0, stage := FlushOut);
    ok := true;
    FlushStarts(k, c, p, r, x, goal, h, s, at);
  }

  lemma SafeSame(p: Ctx, r: Ctx, dst: array<Byte>, d: nat)
    requires r.dict == p.dict && r.dictSize == p.dictSize
    ensures (DictSafe(p, dst, d) ==> Untouched(r, dst, d)) && (Adjacent(p, dst, d) <==> Adjacent(r, dst, d))
  {
  }

  lemma NoHistoryYet(c: Ctx, h: Bytes)
    requires BeforeDecode(c, h) && c.dictSize == 0
    ensures History(c.info, h) == []
  {
  }

  // Bytes written behind the history in tmpOut.
  lemma TmpOverrun(c: Ctx, r: Ctx, junk: Bytes, h: Bytes)
    requires BeforeDecode(c, h) && c.outPos + |junk| <= |c.tmpOut| && r == c.(tmpOut := Put(c.tmpOut, c.outPos, junk))
    requires c.dict.InTmp? ==> c.outPos == c.dictSize
    ensures BeforeDecode(r, h)
  {
    hide Tail, Exact;
    PutSlices(c.tmpOut, c.outPos, junk);
  }

  lemma FlushStarts(k: Codec, c: Ctx, p: Ctx, r: Ctx, x: Bytes, goal: Frame, h: Bytes, s: Bytes, at: nat)
    requires Core(c, h) && InfoOk(c.info) && at <= |s| && |x| <= c.maxBlock
    requires p == c.(tmpOut := p.tmpOut, dictSize := p.dictSize, outPos := p.outPos) && |p.tmpOut| == |c.tmpOut|
    requires p.outPos + |x| <= |p.tmpOut|
    requires r == Metered(p, x).(tmpOut := Put(p.tmpOut, p.outPos, x), outSize := |x|, outStart := 0, stage := FlushOut)
    requires if c.info.linked
      then Settled(p, h) && Min(p.outPos, KB64) == Window(h) && (p.dict.InTmp? ==> p.outPos == p.dictSize)
      else p.dict.NoDict? && p.dictSize == 0 && p.outPos == 0
    requires Follows(goal, ReadBlocks(k, c.info, s, at, h + x), |h + x|)
    ensures Inv(k, goal, r, h, s, at) && HistOk(r, h)
  {
    hide Inv, Core, ReadBlocks, Settled, Tail, Flushing, Put, Follows;
    PutSlices(p.tmpOut, p.outPos, x);
    assert Unflushed(r) == x;
    CoreMetered(c, h, x);
    CoreKeeps(Metered(c, x), r, h + x);
    FlushInv(k, goal, r, h, s, at);
    if c.info.linked {
      StartFlush(p, r, x, h);
    } else {
      assert r.tmpOut[r.outPos..r.outPos + 0] == h[|h| - 0..];
    }
  }

  // Flush decoded bytes to the caller's buffer.
  method FlushStep(k: Codec, c: Ctx, dst: array<Byte>, d: nat, d0: nat, d1: nat, ghost goal: Frame, ghost h: Bytes, ghost s: Bytes, ghost at: nat)
    returns (r: Ctx, e: nat, act: Act, ghost g: Bytes)
    requires c.stage.FlushOut? && d0 <= d <= d1 <= dst.Length
    requires Delivered(k, goal, c, h, s, at, dst, d0, d)
    modifies dst
    ensures d <= e <= d1 && h <= g && |g| == |h| + (e - d)
    ensures !act.Fail? && Delivered(k, goal, r, g, s, at, dst, d0, e)
    ensures act.Again? ==> r.stage.GetBlockHeader?
    ensures e - d + Pending(r) == Pending(c) && (Adjacent(c, dst, d) ==> Adjacent(r, dst, e))
    ensures act.Stop? ==> e == d1 && Waiting(r) && Rests(r, act.hint)
    ensures forall a :: 0 <= a < dst.Length && !(d <= a < e) ==> dst[a] == old(dst[a])
  {
    hide Inv, Core, ReadBlocks, Settled, Recent, Tail, Flushing, Follows;
    InvInfo(k, goal, c, h, s, at);
    FlushInv(k, goal, c, h, s, at);
    CoreFacts(c, h + Unflushed(c));
    var n := Min(c.outSize - c.outStart, d1 - d);
    var x := c.tmpOut[c.outPos + c.outStart..c.outPos + c.outStart + n];
    var p := FlushBytes(c, x, n, dst, d, d0, h);
    r := p.(outStart := c.outStart + n);
    e, g := d + n, h + x;
    Remaining(c, r, h, x, n);
    CoreKeeps(c, r, h + Unflushed(c));
    if r.outStart == r.outSize {
      ghost var q := r;
      r, act := r.(stage := GetBlockHeader), Again;
      assert g + Unflushed(q) == g;
      CoreKeeps(q, r, g);
      BlockHeaderInv(k, goal, r, g, s, at);
      if c.info.linked {
        FlushedIsSettled(q, g);
        SettledSame(q, r, g);
      }
    } else {
      act := Stop(4);
      FlushInv(k, goal, r, g, s, at);
    }
  }

  lemma Remaining(c: Ctx, r: Ctx, h: Bytes, x: Bytes, n: nat)
    requires c.outPos + c.outSize <= |c.tmpOut| == |r.tmpOut| && c.outStart + n <= c.outSize
    requires r.outPos == c.outPos && r.outSize == c.outSize && r.outStart == c.outStart + n
    requires x == c.tmpOut[c.outPos + c.outStart..c.outPos + c.outStart + n]
    requires r.tmpOut[c.outPos..c.outPos + c.outSize] == c.tmpOut[c.outPos..c.outPos + c.outSize]
    ensures h + x + Unflushed(r) == h + Unflushed(c)
  {
    var t, u := c.tmpOut[c.outPos..c.outPos + c.outSize], r.tmpOut[c.outPos..c.outPos + c.outSize];
    SliceOfSlice(c.tmpOut, c.outPos, c.outSize, c.outStart, c.outSize);
    SliceOfSlice(r.tmpOut, c.outPos, c.outSize, c.outStart + n, c.outSize);
    SliceOfSlice(c.tmpOut, c.outPos, c.outSize, c.outStart, c.outStart + n);
    assert t[c.outStart..c.outSize] == t[c.outStart..c.outStart + n] + t[c.outStart + n..c.outSize];
  }

  method FlushBytes(c: Ctx, x: Bytes, n: nat, dst: array<Byte>, d: nat, d0: nat, ghost h: Bytes) returns (p: Ctx)
    requires c.outPos + c.outSize <= |c.tmpOut| && c.outStart + n <= c.outSize && InfoOk(c.info)
    requires c.stage.FlushOut? && HistOk(c, h) && |c.tmpOut| == c.maxBuffer >= Need(c.info)
    requires x == c.tmpOut[c.outPos + c.outStart..c.outPos + c.outStart + n]
    requires d0 <= d && d + n <= dst.Length && Recent(dst, d0, d, h) && DictSafe(c, dst, d)
    modifies dst
    ensures p == c.(tmpOut := p.tmpOut, dict := p.dict, dictSize := p.dictSize) && |p.tmpOut| == |c.tmpOut|
    ensures p.tmpOut[c.outPos..c.outPos + c.outSize] == c.tmpOut[c.outPos..c.outPos + c.outSize]
    ensures HistOk(p.(outStart := c.outStart + n), h + x)
    ensures Recent(dst, d0, d + n, h + x) && DictSafe(p, dst, d + n)
    ensures Adjacent(c, dst, d) ==> Adjacent(p, dst, d + n)
    ensures forall a :: 0 <= a < dst.Length && !(d <= a < d + n) ==> dst[a] == old(dst[a])
  {
    hide Tail, Exact, FlushingWith;
    ghost var region := if c.info.linked then DictBytes(c) else [];
    WriteBytes(dst, d, x);
    assert dst[d0..d] == old(dst[d0..d]);
    RecentAfter(dst, d0, d, x, h);
    if c.info.linked {
      assert DictBytes(c) == region;
      p := UpdateDict(c, dst, d, n, d0, true, h);
    } else {
      p := c;
      Advance(c, c, h, n, x);
    }
  }

  // ---------------------------------------------------------------- one call

  // Get hold of a compressed block and decode it.
  method CBlockStep(k: Codec, c: Ctx, src: Bytes, i: nat, dst: array<Byte>, d: nat, d0: nat, d1: nat,
                    ghost goal: Frame, ghost h: Bytes, ghost s: Bytes, ghost pos: nat)
    returns (r: Ctx, j: nat, e: nat, act: Act, ghost g: Bytes)
    requires CodecOk(k) && (c.stage.GetCBlock? || c.stage.StoreCBlock?)
    requires i <= |src| && Chunk(src, s, pos) && d0 <= d <= d1 <= dst.Length
    requires Delivered(k, goal, c, h, s, pos + i, dst, d0, d)
    modifies dst
    ensures i <= j <= |src| && d <= e <= d1 && h <= g && |g| == |h| + (e - d)
    ensures act.Fail? ==> e == d && Refused(goal, |h|, |h| + (d1 - d), Adjacent(c, dst, d))
    ensures !act.Fail? ==> Delivered(k, goal, r, g, s, pos + j, dst, d0, e)
    ensures !act.Fail? && Adjacent(c, dst, d) ==> Adjacent(r, dst, e) && Roomy(goal, |h|, |g| + Pending(r), |h| + (d1 - d))
    ensures !act.Fail? && CBlockStage(r.stage) ==> e == d
    ensures act.Again? ==> j > i || Rank(r.stage) < Rank(c.stage)
    ensures act.Stop? ==> j == |src| && r.stage.StoreCBlock? && Rests(r, act.hint)
    ensures !act.Fail? && j == i ==> e - d + Pending(r) <= Pending(c)
    ensures forall a :: 0 <= a < dst.Length && !(d <= a < d1) ==> dst[a] == old(dst[a])
  {
    hide Inv, Settled, Flushing, Recent, ReadPacked, ReadBlocks, Follows, Roomy, Refused;
    e, g := d, h;
    var fetch: Fetch;
    if c.stage.GetCBlock? {
      r, j, fetch := GetCBlockStep(k, c, src, i, goal, h, s, pos);
    } else {
      r, j, fetch := StoreCBlockStep(k, c, src, i, goal, h, s, pos);
    }
    SettledSame(c, r, h);
    if fetch.NotYet? {
      ClearIsRoomy(goal, |h|, |h|, |h| + (d1 - d));
      return r, j, d, fetch.act, h;
    }
    r, e, act, g := Unpack(k, r, fetch.data, dst, d, d0, d1, goal, h, s, pos + j);
  }

  method Unpack(k: Codec, c: Ctx, data: Bytes, dst: array<Byte>, d: nat, d0: nat, d1: nat,
                ghost goal: Frame, ghost h: Bytes, ghost s: Bytes, ghost at: nat)
    returns (r: Ctx, e: nat, act: Act, ghost g: Bytes)
    requires CodecOk(k) && Fetched(k, goal, c, data, h, s, at)
    requires BeforeDecode(c, h) && (!c.info.linked ==> c.outPos == 0)
    requires d0 <= d <= d1 <= dst.Length && Recent(dst, d0, d, h) && DictSafe(c, dst, d)
    modifies dst
    ensures d <= e <= d1 && h <= g && |g| == |h| + (e - d)
    ensures act.Fail? ==> e == d && Refused(goal, |h|, |h| + (d1 - d), Adjacent(c, dst, d))
    ensures !act.Fail? ==> act.Again? && !CBlockStage(r.stage) && Delivered(k, goal, r, g, s, at, dst, d0, e)
    ensures !act.Fail? && Adjacent(c, dst, d) ==> Adjacent(r, dst, e) && Roomy(goal, |h|, |g| + Pending(r), |h| + (d1 - d))
    ensures forall a :: 0 <= a < dst.Length && !(d <= a < d1) ==> dst[a] == old(dst[a])
  {
    hide Inv, Settled, Flushing, Recent, ReadPacked, ReadDecoded, Core, Follows, Roomy, Clear;
    var block, ok := CheckBlock(k, c, data, goal, h, s, at);
    if !ok {
      return c, d, Fail, h;
    }
    if d1 - d >= c.maxBlock {
      r, e, ok, g := UnpackToDst(k, c, block, dst, d, d0, d1, goal, h, s, at);
      if ok && Adjacent(c, dst, d) {
        RoomyMore(goal, |h|, |g|, |h| + c.maxBlock, |h| + (d1 - d));
      }
    } else {
      r, ok := UnpackToTmp(k, c, block, goal, h, s, at);
      e, g := d, h;
      if ok && Adjacent(c, dst, d) {
        ClearIsRoomy(goal, |h|, |h| + Pending(r), |h| + (d1 - d));
      }
    }
    act := if ok then Again else Fail;
  }

  lemma RoomyMore(goal: Frame, lo: nat, hi: nat, limit: nat, more: nat)
    requires Roomy(goal, lo, hi, limit) && limit <= more
    ensures Roomy(goal, lo, hi, more)
  {
  }

  lemma HeaderHistory(k: Codec, goal: Frame, c: Ctx, h: Bytes, s: Bytes, at: nat)
    requires HeaderStage(c.stage) && Inv(k, goal, c, h, s, at)
    ensures h == []
  {
  }

  // The stages that need neither output nor history.
  method QuietStep(k: Codec, c: Ctx, src: Bytes, i: nat, dstFull: bool, ghost goal: Frame, ghost h: Bytes, ghost s: Bytes, ghost pos: nat)
    returns (r: Ctx, j: nat, act: Act)
    requires !c.stage.CopyDirect? && !c.stage.GetCBlock? && !c.stage.StoreCBlock? && !c.stage.FlushOut?
    requires i <= |src| && Chunk(src, s, pos) && Inv(k, goal, c, h, s, pos + i)
    requires HeaderStage(c.stage) ==> c.dict.NoDict? && c.dictSize == 0
    ensures SteppedOrEnded(k, goal, c, i, r, h, j, act, src, s, pos)
    ensures act.Stop? && act.hint > 0 ==> (j == |src| || (dstFull && Waiting(r))) && Rests(r, act.hint)
    ensures act.Again? && CBlockStage(r.stage) ==> !dstFull
    ensures !act.Fail? && !(act.Stop? && act.hint == 0) ==> Quiet(c, r)
  {
    hide Inv, Stepped, Ended, BlockStage;
    if HeaderStage(c.stage) {
      HeaderHistory(k, goal, c, h, s, pos + i);
    }
    match c.stage {
      case GetFrameHeader => r, j, act := GetFrameHeaderStep(k, c, src, i, goal, s, pos);
      case StoreFrameHeader => r, j, act := StoreFrameHeaderStep(k, c, src, i, goal, s, pos);
      case Init =>
        r := InitStep(k, c, i, goal, s, pos + i);
        j, act := i, Again;
        InitStepped(k, goal, c, r, i, src, s, pos);
      case GetBlockHeader => r, j, act := GetBlockHeaderStep(k, c, src, i, dstFull, goal, h, s, pos);
      case StoreBlockHeader => r, j, act := StoreBlockHeaderStep(k, c, src, i, dstFull, goal, h, s, pos);
      case GetBlockChecksum => r, j, act := BlockChecksumStep(k, c, src, i, goal, h, s, pos);
      case GetSuffix => r, j, act := SuffixStep(k, c, src, i, goal, h, s, pos);
      case StoreSuffix => r, j, act := StoreSuffixStep(k, c, src, i, goal, h, s, pos);
      case GetSFrameSize | StoreSFrameSize => r, j, act := SFrameSizeStep(k, c, src, i, goal, s, pos);
      case SkipSkippable => r, j, act := SkipStep(k, c, src, i, goal, s, pos);
    }
  }

  // What a quiet step leaves of the history.
  ghost predicate Quiet(c: Ctx, r: Ctx) {
    || (HeaderStage(r.stage) && r.dict == c.dict && r.dictSize == c.dictSize && HeaderStage(c.stage))
    || (c.stage.Init? && r.stage.GetBlockHeader? && r.dict == c.dict && r.dictSize == c.dictSize && r.outPos == 0)
    || (InBlocks(c.stage) && !c.stage.GetSuffix? && !c.stage.StoreSuffix? && BlockStage(c, r))
    || r.stage.StoreSuffix? || r.stage.GetSuffix?
  }

  lemma InitStepped(k: Codec, goal: Frame, c: Ctx, r: Ctx, i: nat, src: Bytes, s: Bytes, pos: nat)
    requires c.stage.Init? && r.stage.GetBlockHeader? && i <= |src| && Inv(k, goal, r, [], s, pos + i)
    ensures Stepped(k, goal, c, i, r, [], i, Again, src, s, pos)
  {
  }

  // After a quiet step the history is what it was.
  lemma QuietHistory(c: Ctx, r: Ctx, h: Bytes, dst: array<Byte>, d: nat)
    requires Quiet(c, r) && HistOk(c, h) && Untouched(c, dst, d) && !c.stage.FlushOut?
    requires c.stage.Init? ==> h == []
    ensures HistOk(r, h) && Untouched(r, dst, d) && (Straight(c, dst, d) ==> Straight(r, dst, d))
  {
    hide Tail, Exact;
    if InBlocks(c.stage) && BlockStage(c, r) {
      SettledSame(c, r, h);
    }
  }

  // Such a step, with what it leaves of the history.
  method Quietly(k: Codec, c: Ctx, src: Bytes, i: nat, dst: array<Byte>, d: nat, d1: nat,
                 ghost goal: Frame, ghost h: Bytes, ghost s: Bytes, ghost pos: nat)
    returns (r: Ctx, j: nat, act: Act)
    requires !c.stage.CopyDirect? && !CBlockStage(c.stage) && !c.stage.FlushOut?
    requires i <= |src| && Chunk(src, s, pos) && d <= d1
    requires Inv(k, goal, c, h, s, pos + i) && HistOk(c, h) && Untouched(c, dst, d)
    ensures SteppedOrEnded(k, goal, c, i, r, h, j, act, src, s, pos) && (!act.Fail? ==> Pending(r) == 0)
    ensures act.Stop? && act.hint > 0 ==> (j == |src| || (d == d1 && Waiting(r))) && Rests(r, act.hint)
    ensures act.Again? || (act.Stop? && act.hint > 0) ==> HistOk(r, h) && Untouched(r, dst, d)
    ensures act.Again? ==> (Straight(c, dst, d) ==> Straight(r, dst, d)) && (CBlockStage(r.stage) ==> d < d1)
  {
    hide Inv, Settled, Flushing, Recent, Ended, Untouched, Straight;
    if HeaderStage(c.stage) {
      HeaderHistory(k, goal, c, h, s, pos + i);
    }
    r, j, act := QuietStep(k, c, src, i, d == d1, goal, h, s, pos);
    if act.Stop? && act.hint == 0 {
      EndedFacts(goal, r, h, pos + j);
    } else if !act.Fail? {
      QuietHistory(c, r, h, dst, d);
    }
  }

  // One stage of the machine.
  method Step(k: Codec, c: Ctx, src: Bytes, i: nat, dst: array<Byte>, d: nat, d0: nat, d1: nat,
              ghost goal: Frame, ghost h: Bytes, ghost s: Bytes, ghost pos: nat)
    returns (r: Ctx, j: nat, e: nat, act: Act, ghost g: Bytes)
    requires CodecOk(k) && i <= |src| && Chunk(src, s, pos) && d0 <= d <= d1 <= dst.Length
    requires Delivered(k, goal, c, h, s, pos + i, dst, d0, d)
    modifies dst
    ensures i <= j <= |src| && d <= e <= d1 && h <= g && |g| == |h| + (e - d)
    ensures act.Fail? ==> e == d && Refused(goal, |h|, |h| + (d1 - d), Straight(c, dst, d))
    ensures act.Fail? ==> goal.Bad? || CBlockStage(c.stage)
    ensures (CBlockStage(c.stage) ==> d < d1) && act.Again? && CBlockStage(r.stage) ==> e < d1
    ensures !act.Fail? && Straight(c, dst, d) ==>
              Roomy(goal, |h| + Pending(c), |g| + Pending(r), |h| + (d1 - d)) && (act.Again? ==> Straight(r, dst, e))
    ensures act.Stop? && act.hint == 0 ==> Ended(goal, r, g, pos + j) && Recent(dst, d0, e, g)
    ensures act.Again? || (act.Stop? && act.hint > 0) ==> Delivered(k, goal, r, g, s, pos + j, dst, d0, e)
    ensures act.Again? ==> j > i || Rank(r.stage) < Rank(c.stage)
    ensures act.Stop? && act.hint > 0 ==> (j == |src| || (e == d1 && Waiting(r))) && Rests(r, act.hint)
    ensures (act.Again? || (act.Stop? && act.hint > 0)) && j == i ==> e - d + Pending(r) <= Pending(c)
    ensures forall a :: 0 <= a < dst.Length && !(d <= a < d1) ==> dst[a] == old(dst[a])
  {
    hide Inv, Settled, Flushing, Recent, Ended, Roomy, Clear, Adjacent, DictSafe, HistOk, Refused;
    e, g := d, h;
    ghost var limit := |h| + (d1 - d);
    if c.stage.CopyDirect? {
      r, j, e, act, g := CopyDirectStep(k, c, src, i, dst, d, d0, d1, goal, h, s, pos);
      ClearIsRoomy(goal, |h|, |g|, limit);
    } else if c.stage.GetCBlock? || c.stage.StoreCBlock? {
      r, j, e, act, g := CBlockStep(k, c, src, i, dst, d, d0, d1, goal, h, s, pos);
    } else if c.stage.FlushOut? {
      r, e, act, g := FlushStep(k, c, dst, d, d0, d1, goal, h, s, pos + i);
      j := i;
      ClearIsRoomy(goal, |h| + Pending(c), |g| + Pending(r), limit);
    } else {
      r, j, act := Quietly(k, c, src, i, dst, d, d1, goal, h, s, pos);
      ClearIsRoomy(goal, |h|, |h|, limit);
      RefusedBad(goal, |h|, limit, Straight(c, dst, d));
    }
  }

  lemma RefusedBad(goal: Frame, n: nat, limit: nat, sure: bool)
    ensures goal.Bad? ==> Refused(goal, n, limit, sure)
  {
  }

  datatype Outcome = Error | Hint(hint: nat)

  class Decoder {
    const k: Codec
    var c: Ctx
    ghost var h: Bytes

    // A context as it is created: no buffers, no frame begun.
    constructor (k: Codec)
      ensures this.k == k && h == [] && Fresh(c)
    {
      this.k := k;
      c := Ctx(GetFrameHeader, NO_INFO, 0, 0, 0, seq(MAX_HEADER, _ => 0), [], 0, 0, [], NoDict, 0, 0, 0, 0, [], []);
      h := [];
    }

    // What holds between calls, when the stream `s` has been taken up to `at`.
    ghost predicate Between(goal: Frame, s: Bytes, at: nat)
      reads this, if c.dict.InDst? then {c.dict.buf} else {}
    {
      CodecOk(k) && Inv(k, goal, c, h, s, at) && HistOk(c, h) && Resting(c)
    }

    // Decode from `src` into dst[d0..d0 + cap], as far as either lasts or to the end of the frame.
    // Behind the output made, the rest of dst[d0..d0 + cap] may hold anything.
    method Decompress(src: Bytes, dst: array<Byte>, d0: nat, cap: nat, stable: bool,
                      ghost goal: Frame, ghost s: Bytes, ghost pos: nat)
      returns (used: nat, made: nat, outcome: Outcome)
      requires Between(goal, s, pos) && Chunk(src, s, pos) && d0 + cap <= dst.Length && Untouched(c, dst, d0)
      modifies this, dst
      ensures used <= |src| && made <= cap
      ensures outcome.Error? ==> Refused(goal, |old(h)| + made, |old(h)| + cap, Straight(old(c), dst, d0))
      ensures outcome.Error? && (CBlockStage(old(c).stage) ==> cap > 0) ==> goal.Bad? || made < cap
      ensures outcome == Hint(0) ==> Fresh(c) && h == []
      ensures outcome == Hint(0) ==> Ended(goal, c, old(h) + dst[d0..d0 + made], pos + used)
      ensures outcome == Hint(0) && Straight(old(c), dst, d0) ==>
                Roomy(goal, |old(h)| + Pending(old(c)), |old(h)| + made, |old(h)| + cap)
      ensures outcome.Hint? && outcome.hint > 0 ==> h == old(h) + dst[d0..d0 + made] && Between(goal, s, pos + used)
      ensures outcome.Hint? && outcome.hint > 0 && Straight(old(c), dst, d0) ==>
                Roomy(goal, |old(h)| + Pending(old(c)), |h| + Pending(c), |old(h)| + cap)
      ensures outcome.Hint? && outcome.hint > 0 ==> used == |src| || (made == cap && Waiting(c))
      ensures outcome.Hint? && outcome.hint > 0 ==> outcome.hint == HintOf(c)
      ensures outcome.Hint? && outcome.hint > 0 && used == 0 ==> made + Pending(c) <= Pending(old(c))
      ensures outcome.Hint? && outcome.hint > 0 && !stable ==> !c.dict.InDst? || c.stage.StoreSuffix?
      ensures forall a :: 0 <= a < dst.Length && !(d0 <= a < d0 + cap) ==> dst[a] == old(dst[a])
    {
      hide Inv, HistOk, Recent, Ended, CodecOk, Fresh, Roomy, Refused, Straight, Chunk, Resting, HintOf, Pending, Waiting;
      var cur, i, d, act := c, 0, d0, Again;
      ghost var g, straight, lo, limit := h, Straight(c, dst, d0), |h| + Pending(c), |h| + cap;
      ghost var room := CBlockStage(c.stage) ==> cap > 0;
      NothingMade(dst, d0, h);
      ClearIsRoomy(goal, lo, lo, limit);
      while act.Again?
        invariant i <= |src| && d0 <= d <= d0 + cap && old(h) <= g && |g| == |old(h)| + (d - d0)
        invariant act.Fail? ==> Refused(goal, |g|, limit, straight)
        invariant act.Fail? && room ==> goal.Bad? || d < d0 + cap
        invariant act.Again? && room && CBlockStage(cur.stage) ==> d < d0 + cap
        invariant act.Again? && straight ==> Straight(cur, dst, d)
        invariant !act.Fail? && straight ==> Roomy(goal, lo, |g| + Pending(cur), limit)
        invariant act.Stop? && act.hint == 0 ==> Ended(goal, cur, g, pos + i) && Recent(dst, d0, d, g)
        invariant act.Again? || (act.Stop? && act.hint > 0) ==> Delivered(k, goal, cur, g, s, pos + i, dst, d0, d)
        invariant act.Stop? && act.hint > 0 ==> (i == |src| || (d == d0 + cap && Waiting(cur))) && Rests(cur, act.hint)
        invariant (act.Again? || (act.Stop? && act.hint > 0)) && i == 0 ==> d - d0 + Pending(cur) <= Pending(old(c))
        invariant forall a :: 0 <= a < dst.Length && !(d0 <= a < d0 + cap) ==> dst[a] == old(dst[a])
        decreases act.Again?, |src| - i, Rank(cur.stage)
      {
        ghost var mid, was := |g| + Pending(cur), Straight(cur, dst, d);
        cur, i, d, act, g := Step(k, cur, src, i, dst, d, d0, d0 + cap, goal, g, s, pos);
        if !act.Fail? && straight {
          RoomyJoin(goal, lo, mid, |g| + Pending(cur), limit);
        } else if act.Fail? {
          RefusedEither(goal, |g|, limit, was, straight);
        }
      }
      used, made := i, d - d0;
      if act.Fail? {
        return used, made, Error;
      }
      outcome := Hint(act.hint);
      Grown(dst, d0, d, g, old(h));
      if act.hint == 0 {
        EndedFacts(goal, cur, g, pos + i);
        c, h := cur, [];
        return;
      }
      if Keeps(cur, stable) {
        cur := PreserveBetween(k, cur, goal, g, s, pos + i);
      } else if !stable {
        NotInDst(cur, g);
      }
      c, h := cur, g;
    }
  }

  // Whether the history has to leave the caller's buffer before the call returns.
  predicate Keeps(c: Ctx, stable: bool) {
    c.info.linked && !c.dict.InTmp? && !stable && InBlocks(c.stage) && !c.stage.GetSuffix? && !c.stage.StoreSuffix?
  }

  lemma NothingMade(dst: array<Byte>, d0: nat, h: Bytes)
    requires d0 <= dst.Length
    ensures Recent(dst, d0, d0, h)
  {
  }

  lemma Grown(dst: array<Byte>, d0: nat, d: nat, g: Bytes, h: Bytes)
    requires Recent(dst, d0, d, g) && h <= g && |g| == |h| + (d - d0)
    ensures g == h + dst[d0..d]
  {
  }

  lemma EndedFacts(goal: Frame, r: Ctx, g: Bytes, at: nat)
    requires Ended(goal, r, g, at)
    ensures Fresh(r) && Pending(r) == 0 && goal.Complete? && goal.content == g && goal.end == at
    ensures forall y :: y in goal.doubts ==> y.offset < |g|
  {
  }

  lemma RefusedEither(goal: Frame, n: nat, limit: nat, sure: bool, less: bool)
    requires Refused(goal, n, limit, sure) && (less ==> sure)
    ensures Refused(goal, n, limit, less)
  {
  }

  lemma NotInDst(c: Ctx, h: Bytes)
    requires HistOk(c, h) && Resting(c) && !Keeps(c, false)
    ensures !c.dict.InDst? || c.stage.StoreSuffix?
  {
  }

  method PreserveBetween(k: Codec, c: Ctx, ghost goal: Frame, ghost h: Bytes, ghost s: Bytes, ghost at: nat) returns (r: Ctx)
    requires Keeps(c, false) && Inv(k, goal, c, h, s, at) && HistOk(c, h) && Resting(c)
    ensures Inv(k, goal, r, h, s, at) && HistOk(r, h) && Resting(r) && !r.dict.InDst? && Pending(r) == Pending(c)
    ensures HintOf(r) == HintOf(c) && (Waiting(c) ==> Waiting(r))
  {
    hide Settled, Flushing, Tail;
    BlockRoom(k, goal, c, h, s, at);
    r := Preserve(c, h);
    PreservedInv(k, goal, c, r, h, s, at);
  }

  lemma BlockRoom(k: Codec, goal: Frame, c: Ctx, h: Bytes, s: Bytes, at: nat)
    requires InBlocks(c.stage) && Inv(k, goal, c, h, s, at)
    ensures |c.tmpOut| >= KB64
  {
  }

  lemma SameUnflushed(c: Ctx, r: Ctx)
    requires c.outPos + c.outSize <= |c.tmpOut| == |r.tmpOut| && c.outStart <= c.outSize
    requires r.outPos == c.outPos && r.outSize == c.outSize && r.outStart == c.outStart
    requires r.tmpOut[c.outPos..c.outPos + c.outSize] == c.tmpOut[c.outPos..c.outPos + c.outSize]
    ensures Unflushed(r) == Unflushed(c)
  {
    SliceOfSlice(c.tmpOut, c.outPos, c.outSize, c.outStart, c.outSize);
    SliceOfSlice(r.tmpOut, c.outPos, c.outSize, c.outStart, c.outSize);
  }

  lemma PreservedInv(k: Codec, goal: Frame, c: Ctx, r: Ctx, h: Bytes, s: Bytes, at: nat)
    requires InBlocks(c.stage) && Inv(k, goal, c, h, s, at) && |r.tmpOut| == |c.tmpOut|
    requires r == c.(tmpOut := r.tmpOut, dict := r.dict, dictSize := r.dictSize, outPos := r.outPos)
    requires c.stage.FlushOut? ==> r.outPos == c.outPos && r.tmpOut[c.outPos..c.outPos + c.outSize] == c.tmpOut[c.outPos..c.outPos + c.outSize]
    ensures Inv(k, goal, r, h, s, at)
  {
    hide ReadBlocks, ReadDirect, ReadBlockSum, ReadPacked, ReadSuffix, Buffered, Unflushed, Follows, IsBlockSize;
    if c.stage.FlushOut? {
      SameUnflushed(c, r);
    }
  }
}
