/**
  * Whole streams: any sequence of updates and flushes gives a frame, and any way of feeding it to
  * the decoder, in slices and output buffers of any sizes, gives the content back and ends exactly
  * at the end of the frame.  Of other frames the decoder accepts, however they are fed, all that
  * read well with external dictionaries, and none that do not read well with the history in front
  * of every block; in between it depends on the capacities, and for one call this is exact.
  */
module Lz4FrameStream {
  import opened Basics
  import opened ByteSeq
  import opened Lz4Format
  import opened Lz4FrameFormat
  import opened Lz4FrameHistory
  import opened Lz4FrameReader
  import opened Lz4FrameDecode
  import Encode = Lz4FrameEncode

  // ---------------------------------------------------------------- what is left of a frame

  // Where a call rests, part of a good frame is still to come.
  lemma Unfinished(k: Codec, goal: Frame, c: Ctx, h: Bytes, s: Bytes, at: nat)
    requires Inv(k, goal, c, h, s, at) && Resting(c) && goal.Complete?
    ensures at < goal.end <= |s| && |h| + Pending(c) <= |goal.content|
  {
    hide ReadFrame, ReadBlocks, ReadDirect, ReadBlockSum, ReadPacked, Word32, Later;
    match c.stage
    case GetFrameHeader => FrameLeft(k, s, at);
    case StoreFrameHeader => HeaderLeft(k, goal, c, s, at);
    case GetBlockHeader => BlocksLeft(k, c.info, s, at, h);
    case StoreBlockHeader => BlocksLeft(k, c.info, s, at - c.tmpInSize, h);
    case CopyDirect => DirectLeft(k, c.info, s, at, c.tmpInTarget, if c.info.blockSum then c.fed else [], h);
    case GetBlockChecksum => SumLeft(k, c.info, s, at - c.tmpInSize, c.fed, h);
    case GetCBlock => PackedLeft(k, c.info, s, at, c.tmpInTarget, h);
    case StoreCBlock => PackedLeft(k, c.info, s, at - c.tmpInSize, c.tmpInTarget, h);
    case FlushOut => BlocksLeft(k, c.info, s, at, h + Unflushed(c));
    case _ =>
  }

  lemma HeaderLeft(k: Codec, goal: Frame, c: Ctx, s: Bytes, at: nat)
    requires c.stage.StoreFrameHeader? && Inv(k, goal, c, [], s, at) && goal.Complete?
    ensures at < goal.end <= |s|
  {
    hide ReadFrame, Word32;
    FrameLeft(k, s, at - c.tmpInSize);
    if c.tmpInTarget > MIN_HEADER {
      KnownHeader(k, goal, c, s, at);
    }
  }

  lemma SameWord(a: Bytes, s: Bytes, at: nat)
    requires |a| >= 4 && at + 4 <= |s| && a[0..4] == s[at..at + 4]
    ensures Word32(a, 0) == Word32(s, at)
  {
  }

  // Where the hint of a call leads past the end of a good frame: a skippable frame with less than
  // 3 bytes whose header was cut, and a last block whose checksum is counted twice.
  ghost predicate PastEnd(c: Ctx, s: Bytes, at: nat) {
    match c.stage
    case StoreFrameHeader =>
      c.tmpInSize <= at && at - c.tmpInSize + 8 <= |s| && Word32(s, at - c.tmpInSize) / 16 * 16 == MAGIC_SKIPPABLE
      && Word32(s, at - c.tmpInSize + 4) < 3
    case StoreCBlock =>
      var next := at + c.tmpInTarget - c.tmpInSize;
      0 <= next && next + 4 <= |s| && c.info.blockSum && !c.info.contentSum && Word32(s, next) % UNCOMPRESSED == 0
    case _ => false
  }

  // Elsewhere as many bytes as the hint says are still to come.
  lemma HintInside(k: Codec, goal: Frame, c: Ctx, h: Bytes, s: Bytes, at: nat)
    requires Inv(k, goal, c, h, s, at) && Rests(c, HintOf(c)) && goal.Complete?
    ensures at + HintOf(c) <= goal.end <==> !PastEnd(c, s, at)
  {
    hide ReadFrame, ReadBlocks, ReadDirect, ReadBlockSum, ReadPacked, Word32, Later;
    match c.stage
    case GetFrameHeader => FrameLeft(k, s, at);
    case StoreFrameHeader => HintInHeader(k, goal, c, s, at);
    case StoreBlockHeader => BlocksLeft(k, c.info, s, at - c.tmpInSize, h);
    case CopyDirect => DirectLeft(k, c.info, s, at, c.tmpInTarget, if c.info.blockSum then c.fed else [], h);
    case GetBlockChecksum => SumLeft(k, c.info, s, at - c.tmpInSize, c.fed, h);
    case GetCBlock => PackedLeft(k, c.info, s, at, c.tmpInTarget, h);
    case StoreCBlock => PackedLeft(k, c.info, s, at - c.tmpInSize, c.tmpInTarget, h);
    case FlushOut => BlocksLeft(k, c.info, s, at, h + Unflushed(c));
    case _ =>
  }

  lemma HintInHeader(k: Codec, goal: Frame, c: Ctx, s: Bytes, at: nat)
    requires c.stage.StoreFrameHeader? && Inv(k, goal, c, [], s, at) && goal.Complete?
    ensures at + HintOf(c) <= goal.end <==> !PastEnd(c, s, at)
  {
    hide ReadFrame, Word32;
    var fs := at - c.tmpInSize;
    FrameLeft(k, s, fs);
    if c.tmpInTarget > MIN_HEADER {
      KnownHeader(k, goal, c, s, at);
    }
  }

  // A header of which more than 7 bytes are asked for is not that of a skippable frame.
  lemma KnownHeader(k: Codec, goal: Frame, c: Ctx, s: Bytes, at: nat)
    requires c.stage.StoreFrameHeader? && Inv(k, goal, c, [], s, at) && c.tmpInTarget > MIN_HEADER
    ensures c.tmpInSize <= at && at - c.tmpInSize + MIN_HEADER <= |s|
    ensures Word32(s, at - c.tmpInSize) / 16 * 16 != MAGIC_SKIPPABLE && c.tmpInTarget == HeaderSize(s[at - c.tmpInSize + 4])
  {
    hide ReadFrame, Word32;
    var fs := at - c.tmpInSize;
    assert c.header[4] == s[fs + 4] by { assert c.header[..c.tmpInSize][4] == s[fs..at][4]; }
    SliceOfSlice(c.header, 0, c.tmpInSize, 0, 4);
    SliceOfSlice(s, fs, c.tmpInSize, 0, 4);
    assert c.header[0..0 + c.tmpInSize] == c.header[..c.tmpInSize];
    SameWord(c.header, s, fs);
  }

  // ---------------------------------------------------------------- feeding a frame

  // Feed the frame at the start of `s` in slices of take(0), take(1), ... bytes, with room for
  // room(0), room(1), ... bytes, each call with a buffer of its own.  What is accepted is what the
  // reference reader reads; what it reads with external dictionaries too is accepted.
  method DecodeAll(k: Codec, s: Bytes, take: nat -> nat, room: nat -> nat) returns (out: Bytes, used: nat, ok: bool)
    requires CodecOk(k) && forall n: nat :: take(n) > 0 && room(n) > 0
    ensures ok ==> ReadFrame(k, s, 0).Complete?
    ensures ok ==> out == ReadFrame(k, s, 0).content && used == ReadFrame(k, s, 0).end
    ensures ReadFrame(Outside(k), s, 0).Complete? ==> ok
  {
    hide Inv, HistOk, CodecOk, ReadFrame, Untouched, Resting, Fresh, Chunk, Pending, Ended, Refused, Roomy;
    ghost var goal := ReadFrame(k, s, 0);
    var decoder := new Decoder(k);
    FreshInv(k, decoder.c, s);
    ExternalReader(k, s, 0);
    out, used, ok := [], 0, false;
    var call := 0;
    while used < |s|
      invariant fresh(decoder) && decoder.k == k && used <= |s| && decoder.h == out && decoder.Between(goal, s, used)
      invariant !decoder.c.dict.InDst? || decoder.c.stage.StoreSuffix?
      decreases |s| - used, Pending(decoder.c)
    {
      var n := Min(take(call), |s| - used);
      var dst := new Byte[room(call)];
      NotThere(decoder.c, dst);
      Slice(s, used, n);
      ghost var limit, straight := |out| + room(call), Straight(decoder.c, dst, 0);
      var i, made, outcome := decoder.Decompress(s[used..used + n], dst, 0, room(call), false, goal, s, used);
      if outcome.Error? {
        InDoubt(goal, |out| + made, limit, straight);
        return;
      }
      used, out := used + i, out + dst[0..made];
      if outcome == Hint(0) {
        EndedFacts(goal, decoder.c, out, used);
        ok := true;
        return;
      }
      call := call + 1;
    }
    if goal.Complete? {
      Unfinished(k, goal, decoder.c, decoder.h, s, used);
    }
  }

  // A good frame is refused only over a block in doubt.
  lemma InDoubt(goal: Frame, n: nat, limit: nat, sure: bool)
    requires Refused(goal, n, limit, sure)
    ensures Sure(goal).Bad?
  {
  }

  // One call with a new context, all of the stream and room for `cap` bytes: a good frame is
  // refused exactly when a block in doubt starts inside the room and its full size does not fit
  // there, and otherwise complete when there is room for the content (for one byte more when a
  // compressed block has no content).
  method DecodeOnce(k: Codec, s: Bytes, cap: nat) returns (out: Bytes, used: nat, outcome: Outcome)
    requires CodecOk(k)
    ensures outcome == Hint(0) ==> ReadFrame(k, s, 0).Complete?
    ensures outcome == Hint(0) ==> out == ReadFrame(k, s, 0).content && used == ReadFrame(k, s, 0).end
    ensures ReadFrame(k, s, 0).Complete? ==> (outcome.Error? <==> Straddles(ReadFrame(k, s, 0), cap))
    ensures Fits(ReadFrame(k, s, 0), cap) ==> outcome.Error? || outcome == Hint(0)
  {
    hide Inv, HistOk, CodecOk, ReadFrame, Untouched, Resting, Fresh, Chunk, Pending, Ended, Refused, Roomy, Straight, Straddles, Waiting;
    ghost var goal := ReadFrame(k, s, 0);
    var decoder := new Decoder(k);
    FreshInv(k, decoder.c, s);
    var dst := new Byte[cap];
    FreshStraight(decoder.c, dst);
    Slice(s, 0, |s|);
    assert s[0..|s|] == s;
    var made;
    used, made, outcome := decoder.Decompress(s, dst, 0, cap, false, goal, s, 0);
    out := dst[0..made];
    assert [] + out == out;
    if outcome == Hint(0) {
      EndedFacts(goal, decoder.c, out, used);
      NotStraddled(goal, made, cap);
    } else if goal.Complete? && outcome.Error? {
      Straddled(goal, made, cap);
    } else if goal.Complete? {
      Unfinished(k, goal, decoder.c, decoder.h, s, used);
      MoreToCome(k, goal, decoder.c, decoder.h, s, used);
      NotStraddled(goal, |decoder.h| + Pending(decoder.c), cap);
    }
  }

  // Room for the content, and for more when a call might stop before a block without any.
  ghost predicate Fits(goal: Frame, cap: nat) {
    goal.Complete? && |goal.content| <= cap && (goal.blank ==> |goal.content| < cap)
  }

  // Where a call waits for room, content is to come, or a block without any.
  lemma MoreToCome(k: Codec, goal: Frame, c: Ctx, h: Bytes, s: Bytes, at: nat)
    requires Inv(k, goal, c, h, s, at) && Resting(c) && Waiting(c) && goal.Complete?
    ensures |h| < |goal.content| || (|h| == |goal.content| && goal.blank)
  {
    hide ReadBlocks, ReadDirect, ReadPacked, Later;
    match c.stage
    case CopyDirect => DirectLeft(k, c.info, s, at, c.tmpInTarget, if c.info.blockSum then c.fed else [], h);
    case GetCBlock => PackedLeft(k, c.info, s, at, c.tmpInTarget, h);
    case FlushOut => BlocksLeft(k, c.info, s, at, h + Unflushed(c));
  }

  // A block in doubt starts before `cap` and may reach beyond it.
  ghost predicate Straddles(goal: Frame, cap: nat) {
    goal.Complete? && exists y :: y in goal.doubts && y.offset < cap < y.offset + y.size
  }

  // A good frame is complete in one call when the room is large enough, and some room makes the call
  // refuse it unless it reads well with external dictionaries.
  lemma AllCapacities(k: Codec, s: Bytes)
    requires CodecOk(k) && ReadFrame(k, s, 0).Complete?
    ensures var g := ReadFrame(k, s, 0);
      Fits(g, |g.content| + 64 * KB64) && !Straddles(g, |g.content| + 64 * KB64)
    ensures ReadFrame(Outside(k), s, 0).Complete? <==> forall cap: nat :: !Straddles(ReadFrame(k, s, 0), cap)
  {
    hide CodecOk, ReadFrame;
    ExternalReader(k, s, 0);
    FrameLeft(k, s, 0);
    var g := ReadFrame(k, s, 0);
    if g.doubts != {} {
      var y :| y in g.doubts;
      assert Straddles(g, y.offset + 1);
    }
  }

  lemma Straddled(goal: Frame, n: nat, cap: nat)
    requires goal.Complete? && Refused(goal, n, cap, true) && n < cap
    ensures Straddles(goal, cap)
  {
    var size :| Doubt(n, size) in goal.doubts && n + size > cap;
    assert Doubt(n, size).offset < cap < Doubt(n, size).offset + Doubt(n, size).size;
  }

  lemma NotStraddled(goal: Frame, n: nat, cap: nat)
    requires goal.Complete? && Roomy(goal, 0, n, cap)
    requires n >= cap || forall y :: y in goal.doubts ==> y.offset < n
    ensures !Straddles(goal, cap)
  {
  }

  lemma FreshInv(k: Codec, c: Ctx, s: Bytes)
    requires Fresh(c)
    ensures Inv(k, ReadFrame(k, s, 0), c, [], s, 0) && HistOk(c, []) && Resting(c)
  {
    hide ReadFrame, Follows;
    FollowsItself(ReadFrame(k, s, 0), 0);
  }

  lemma FreshStraight(c: Ctx, dst: array<Byte>)
    requires Fresh(c)
    ensures Straight(c, dst, 0) && Untouched(c, dst, 0) && Pending(c) == 0 && !CBlockStage(c.stage)
  {
  }

  lemma NotThere(c: Ctx, dst: array<Byte>)
    requires !c.dict.InDst? || c.stage.StoreSuffix?
    ensures Untouched(c, dst, 0)
  {
  }

  lemma Slice(s: Bytes, at: nat, n: nat)
    requires at + n <= |s|
    ensures Chunk(s[at..at + n], s, at)
  {
  }

  // ---------------------------------------------------------------- writing a frame

  datatype Op = Update(src: Bytes, stableSrc: bool) | Flush

  function Content(ops: seq<Op>): Bytes {
    if ops == [] then []
    else Content(ops[..|ops| - 1]) + (match ops[|ops| - 1] case Update(src, _) => src case Flush => [])
  }

  // Every call gets an output buffer of LZ4F_compressBound bytes.
  method EncodeAll(k: Codec, pack: Encode.Pack, prefs: Info, autoFlush: bool, ops: seq<Op>) returns (frame: Bytes, ok: bool)
    requires CodecOk(k) && Encode.PackOk(k, pack) && InfoOk(prefs)
    ensures prefs.contentSize > 0 && |Content(ops)| != prefs.contentSize <==> !ok
    ensures ok ==> ReadFrame(k, frame, 0) == Complete(Content(ops), |frame|, {}, false)
  {
    hide CodecOk, Encode.PackOk, ReadFrame, Encode.CompressBound, Encode.Bound, Encode.Encoder.Valid;
    var e := new Encode.Encoder(k, pack, prefs, autoFlush);
    var header := new Byte[MAX_HEADER];
    var r := e.Begin(header, 0, MAX_HEADER);
    frame := header[0..r.n];
    var n := 0;
    while n < |ops|
      invariant 0 <= n <= |ops| && fresh(e) && e.k == k && e.info == prefs && e.autoFlush == autoFlush
      invariant e.Valid() && e.out == frame && e.content == Content(ops[..n])
    {
      assert ops[..n + 1][..n] == ops[..n] && ops[..n + 1][n] == ops[n];
      var piece := Feed(e, ops[n]);
      frame := frame + piece;
      n := n + 1;
    }
    assert ops[..n] == ops;
    var last := new Byte[Encode.CompressBound(prefs, autoFlush, 0)];
    ghost var flushed;
    r, flushed := e.End(last, 0, last.Length);
    ok := r.Written?;
    if ok {
      frame := frame + last[0..r.n];
    }
  }

  method Feed(e: Encode.Encoder, op: Op) returns (piece: Bytes)
    requires e.Valid()
    modifies e
    ensures e.Valid() && e.out == old(e.out) + piece
    ensures e.content == old(e.content) + match op case Update(src, _) => src case Flush => []
  {
    hide Encode.CompressBound;
    e.BeforeEnd();
    match op {
      case Update(src, stableSrc) =>
        e.EnoughForUpdate(|src|);
        var dst := new Byte[Encode.CompressBound(e.info, e.autoFlush, |src|)];
        var r := e.Update(dst, 0, dst.Length, src, stableSrc);
        piece := dst[0..r.n];
      case Flush =>
        var dst := new Byte[Encode.CompressBound(e.info, e.autoFlush, 0)];
        var r := e.Flush(dst, 0, dst.Length);
        piece := dst[0..r.n];
    }
  }

  // Any split of the content into updates and flushes, then one call with room for the content.
  method RoundTripOnce(k: Codec, pack: Encode.Pack, prefs: Info, autoFlush: bool, ops: seq<Op>, cap: nat)
    returns (out: Bytes, ok: bool)
    requires CodecOk(k) && Encode.PackOk(k, pack) && InfoOk(prefs) && |Content(ops)| <= cap
    ensures ok <==> prefs.contentSize == 0 || |Content(ops)| == prefs.contentSize
    ensures ok ==> out == Content(ops)
  {
    hide CodecOk, Encode.PackOk, ReadFrame;
    out := [];
    var frame;
    frame, ok := EncodeAll(k, pack, prefs, autoFlush, ops);
    if ok {
      var used, outcome;
      out, used, outcome := DecodeOnce(k, frame, cap);
    }
  }

  // Any split of the content into updates and flushes, then any split of the frame into slices
  // and output buffers: the content comes back.
  method RoundTrip(k: Codec, pack: Encode.Pack, prefs: Info, autoFlush: bool, ops: seq<Op>, take: nat -> nat, room: nat -> nat)
    returns (out: Bytes, ok: bool)
    requires CodecOk(k) && Encode.PackOk(k, pack) && InfoOk(prefs)
    requires forall n: nat :: take(n) > 0 && room(n) > 0
    ensures ok <==> prefs.contentSize == 0 || |Content(ops)| == prefs.contentSize
    ensures ok ==> out == Content(ops)
  {
    hide CodecOk, Encode.PackOk, ReadFrame;
    out := [];
    var frame;
    frame, ok := EncodeAll(k, pack, prefs, autoFlush, ops);
    if ok {
      var used, accepted;
      ExternalReader(k, frame, 0);
      out, used, accepted := DecodeAll(k, frame, take, room);
    }
  }
}
