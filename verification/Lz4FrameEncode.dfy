/**
  * The streaming encoder of LZ4 frames: header, blocks cut from any split of the content into
  * updates and flushes, end mark and checksums.  The block compressor is a parameter of which only
  * its contract is used.  Whatever the split, the bytes written are a frame the reference reader
  * reads as the content, and every call stays inside the documented bound.
  */
module Lz4FrameEncode {
  import opened Basics
  import opened ByteSeq
  import opened Lz4Format
  import opened Lz4FrameFormat

  // ---------------------------------------------------------------- the compressor

  // Number of the call, history, block, capacity: the compressed block, or None when it does not fit.
  type Pack = (nat, Bytes, Bytes, nat) -> Option<Bytes>

  ghost predicate PackOk(k: Codec, pack: Pack) {
    forall n: nat, h: Bytes, x: Bytes, cap: nat :: pack(n, h, x, cap).Some? ==> Packed(k, pack(n, h, x, cap).value, h, x, cap)
  }

  ghost predicate Packed(k: Codec, b: Bytes, h: Bytes, x: Bytes, cap: nat) {
    0 < |b| <= cap && forall m: nat :: |x| <= m ==> Unpacks(k, b, h, m, x)
  }

  // In either mode of the decoder.
  ghost predicate Unpacks(k: Codec, b: Bytes, h: Bytes, cap: nat, x: Bytes) {
    k.decode(b, h, cap, Prefix) == Some(x) == k.decode(b, h, cap, External)
  }

  // ---------------------------------------------------------------- the bytes of a frame

  // Any stream that starts with `out` is read, up to there, as a frame with content `hist` so far.
  ghost predicate Leads(k: Codec, f: Info, out: Bytes, hist: Bytes) {
    InfoOk(f) && forall s: Bytes :: out <= s ==> ReadFrame(k, s, 0) == ReadBlocks(k, f, s, |out|, hist)
  }

  lemma HeaderLeads(k: Codec, f: Info)
    requires InfoOk(f)
    ensures Leads(k, f, HeaderBytes(k, f), []) && |HeaderBytes(k, f)| <= MAX_HEADER
  {
    hide HeaderBytes, ParseHeader, ReadBlocks, Word32;
    var h := HeaderBytes(k, f);
    HeaderRoundTrip(k, f);
    forall s: Bytes | h <= s
      ensures ReadFrame(k, s, 0) == ReadBlocks(k, f, s, |h|, [])
    {
      assert s[0..|h|] == h && s[4] == h[4];
      HeaderMagic(k, f, s);
    }
  }

  lemma HeaderMagic(k: Codec, f: Info, s: Bytes)
    requires InfoOk(f) && HeaderBytes(k, f) <= s
    ensures |s| >= MIN_HEADER && Word32(s, 0) == MAGIC
  {
    var h := HeaderBytes(k, f);
    assert s[0..4] == h[0..4] == LE(MAGIC, 4);
    WordOf(s, 0, MAGIC);
  }

  // A block as it is written: size word, payload, checksum.
  function BlockBytes(k: Codec, f: Info, word: nat, payload: Bytes): Bytes {
    LE(word, 4) + payload + if f.blockSum then LE(k.xxh(payload), 4) else []
  }

  // The block the compressor's answer makes: its bytes when there are any, else the content as it is.
  function Made(k: Codec, f: Info, packed: Option<Bytes>, x: Bytes): Bytes {
    match packed
    case Some(b) => BlockBytes(k, f, |b|, b)
    case None => BlockBytes(k, f, |x| + UNCOMPRESSED, x)
  }

  // A block of content `x`: stored as it is, or compressed.
  ghost predicate BlockOf(k: Codec, f: Info, word: nat, payload: Bytes, hist: Bytes, x: Bytes)
    requires InfoOk(f)
  {
    && 0 < |payload| <= BlockSizeOf(f.blockSizeID) && x != []
    && if word >= UNCOMPRESSED then word == UNCOMPRESSED + |payload| && payload == x
       else word == |payload| && Unpacks(k, payload, History(f, hist), BlockSizeOf(f.blockSizeID), x)
  }

  lemma BlockParts(k: Codec, f: Info, s: Bytes, at: nat, word: nat, payload: Bytes)
    requires word < 0x1_0000_0000 && k.xxh(payload) < 0x1_0000_0000
    requires at + |BlockBytes(k, f, word, payload)| <= |s|
    requires s[at..at + |BlockBytes(k, f, word, payload)|] == BlockBytes(k, f, word, payload)
    ensures Word32(s, at) == word && s[at + 4..at + 4 + |payload|] == payload
    ensures f.blockSum ==> Word32(s, at + 4 + |payload|) == k.xxh(payload)
    ensures |BlockBytes(k, f, word, payload)| == 4 + |payload| + CrcSize(f)
  {
    hide LE, FromLE;
    var b := BlockBytes(k, f, word, payload);
    var n := |payload|;
    SliceOfSlice(s, at, |b|, 0, 4);
    assert b[0..4] == LE(word, 4);
    WordOf(s, at, word);
    SliceOfSlice(s, at, |b|, 4, 4 + n);
    assert b[4..4 + n] == payload;
    if f.blockSum {
      SliceOfSlice(s, at, |b|, 4 + n, 8 + n);
      assert b[4 + n..8 + n] == LE(k.xxh(payload), 4);
      WordOf(s, at + 4 + n, k.xxh(payload));
    }
  }

  // The reference reader passes over a block and gains its content.
  lemma ReadBlockStep(k: Codec, f: Info, s: Bytes, at: nat, word: nat, payload: Bytes, hist: Bytes, x: Bytes)
    requires CodecOk(k) && InfoOk(f) && BlockOf(k, f, word, payload, hist, x)
    requires at + |BlockBytes(k, f, word, payload)| <= |s|
    requires s[at..at + |BlockBytes(k, f, word, payload)|] == BlockBytes(k, f, word, payload)
    ensures ReadBlocks(k, f, s, at, hist) == ReadBlocks(k, f, s, at + |BlockBytes(k, f, word, payload)|, hist + x)
  {
    hide BlockBytes, Word32;
    BlockParts(k, f, s, at, word, payload);
    var n := |payload|;
    SizeBits(word, n);
    var end := at + 4 + n + CrcSize(f);
    if word >= UNCOMPRESSED {
      assert ReadBlocks(k, f, s, at, hist) == ReadDirect(k, f, s, at + 4, n, [], hist);
      assert [] + s[at + 4..at + 4 + n] == payload;
      assert ReadDirect(k, f, s, at + 4, n, [], hist) == ReadBlockSum(k, f, s, at + 4 + n, payload, hist + x);
    } else {
      assert ReadBlocks(k, f, s, at, hist) == ReadPacked(k, f, s, at + 4, n + CrcSize(f), hist);
      assert ReadPacked(k, f, s, at + 4, n + CrcSize(f), hist) == ReadDecoded(k, f, s, end, payload, hist);
    }
  }

  lemma SizeBits(word: nat, n: nat)
    requires 0 < n < UNCOMPRESSED && (word == n || word == UNCOMPRESSED + n)
    ensures word % UNCOMPRESSED == n && (word >= UNCOMPRESSED <==> word == UNCOMPRESSED + n)
  {
  }

  lemma BlockLeads(k: Codec, f: Info, out: Bytes, hist: Bytes, word: nat, payload: Bytes, x: Bytes)
    requires CodecOk(k) && Leads(k, f, out, hist) && BlockOf(k, f, word, payload, hist, x)
    ensures Leads(k, f, out + BlockBytes(k, f, word, payload), hist + x)
  {
    hide BlockBytes, ReadBlocks, ReadFrame, BlockOf, CodecOk;
    var b := BlockBytes(k, f, word, payload);
    forall s: Bytes | out + b <= s
      ensures ReadFrame(k, s, 0) == ReadBlocks(k, f, s, |out + b|, hist + x)
    {
      assert out <= s;
      assert s[|out|..|out| + |b|] == b;
      ReadBlockStep(k, f, s, |out|, word, payload, hist, x);
    }
  }

  // The end mark and, when there is one, the checksum of the content.
  function EndBytes(k: Codec, f: Info, content: Bytes): Bytes {
    LE(0, 4) + if f.contentSum then LE(k.xxh(content), 4) else []
  }

  lemma EndLeads(k: Codec, f: Info, out: Bytes, content: Bytes)
    requires CodecOk(k) && Leads(k, f, out, content)
    requires f.contentSize > 0 ==> |content| % 0x1_0000_0000_0000_0000 == f.contentSize
    ensures var s := out + EndBytes(k, f, content); ReadFrame(k, s, 0) == Complete(content, |s|, {}, false)
  {
    hide LE, FromLE, Word32, ReadFrame;
    var e := EndBytes(k, f, content);
    var s := out + e;
    assert out <= s;
    assert s[|out|..|out| + 4] == LE(0, 4);
    WordOf(s, |out|, 0);
    if f.contentSum {
      assert s[|out| + 4..|out| + 8] == LE(k.xxh(content), 4);
      WordOf(s, |out| + 4, k.xxh(content));
    }
  }

  /** A frame byte for byte: the one byte "a", stored, with the checksums XXH32 gives. */
  lemma KnownFrame(k: Codec)
    requires CodecOk(k) && k.xxh([0x64, 0x40]) == 0x95C0A77C && k.xxh([0x61]) == 0x550D7456
    ensures
      var f := Info(false, false, true, 4, 0, 0);
      var s := HeaderBytes(k, f) + Made(k, f, None, [0x61]) + EndBytes(k, f, [0x61]);
      && s == [0x04, 0x22, 0x4D, 0x18, 0x64, 0x40, 0xA7, 1, 0, 0, 0x80, 0x61, 0, 0, 0, 0, 0x56, 0x74, 0x0D, 0x55]
      && ReadFrame(k, s, 0) == Complete([0x61], |s|, {}, false)
  {
    hide CodecOk, ReadFrame, Leads, HeaderBytes, EndBytes, BlockBytes, BlockOf;
    var f := Info(false, false, true, 4, 0, 0);
    var h, b := HeaderBytes(k, f), BlockBytes(k, f, 1 + UNCOMPRESSED, [0x61]);
    HeaderLeads(k, f);
    StoredBlock(k, f, [], [0x61]);
    BlockLeads(k, f, h, [], 1 + UNCOMPRESSED, [0x61], [0x61]);
    assert [] + [0x61] == [0x61];
    EndLeads(k, f, h + b, [0x61]);
    KnownParts(k, f);
  }

  /** A skippable frame, byte for byte: any of its 16 magic numbers, the size 2, two bytes. */
  lemma KnownSkippable(k: Codec, low: Byte, x: Byte, y: Byte)
    requires 0x50 <= low < 0x60
    ensures ReadFrame(k, [low, 0x2A, 0x4D, 0x18, 2, 0, 0, 0, x, y], 0) == Complete([], 10, {}, false)
  {
    hide LE;
    var s := [low, 0x2A, 0x4D, 0x18, 2, 0, 0, 0, x, y];
    var word: int := low;
    word := 0x184D2A00 + word;
    FourBytes(word);
    assert s[0..4] == LE(word, 4);
    WordOf(s, 0, word);
    FourBytes(2);
    assert s[4..8] == LE(2, 4);
    WordOf(s, 4, 2);
  }

  lemma KnownParts(k: Codec, f: Info)
    requires f == Info(false, false, true, 4, 0, 0) && k.xxh([0x64, 0x40]) == 0x95C0A77C && k.xxh([0x61]) == 0x550D7456
    ensures HeaderBytes(k, f) == [0x04, 0x22, 0x4D, 0x18, 0x64, 0x40, 0xA7]
    ensures BlockBytes(k, f, 1 + UNCOMPRESSED, [0x61]) == [1, 0, 0, 0x80, 0x61]
    ensures EndBytes(k, f, [0x61]) == [0, 0, 0, 0, 0x56, 0x74, 0x0D, 0x55]
  {
    hide LE;
    KnownWords();
    assert Descriptor(f) == [0x64, 0x40];
  }

  lemma KnownWords()
    ensures LE(MAGIC, 4) == [0x04, 0x22, 0x4D, 0x18] && LE(1 + UNCOMPRESSED, 4) == [1, 0, 0, 0x80]
    ensures LE(0, 4) == [0, 0, 0, 0] && LE(0x550D7456, 4) == [0x56, 0x74, 0x0D, 0x55]
  {
    FourBytes(MAGIC);
    FourBytes(1 + UNCOMPRESSED);
    FourBytes(0);
    FourBytes(0x550D7456);
  }

  lemma FourBytes(n: nat)
    ensures LE(n, 4) == [n % 256, n / 256 % 256, n / 256 / 256 % 256, n / 256 / 256 / 256 % 256]
  {
    assert LE(n, 4) == [n % 256] + LE(n / 256, 3);
    assert LE(n / 256, 3) == [n / 256 % 256] + LE(n / 256 / 256, 2);
  }

  // ---------------------------------------------------------------- the bound

  // What it costs to emit `n` bytes of content.
  function Cost(f: Info, autoFlush: bool, n: nat): nat
    requires InfoOk(f)
  {
    Blocks(BlockSizeOf(f.blockSizeID), 4 + CrcSize(f), autoFlush, n)
  }

  // `n` bytes in blocks of `bs`, each with `overhead` bytes around it; the rest as a short block on a flush.
  function Blocks(bs: nat, overhead: nat, flush: bool, n: nat): nat
    requires bs > 0
  {
    var last := if flush then n % bs else 0;
    overhead * (n / bs + Bit(last > 0)) + bs * (n / bs) + last
  }

  // The capacity one call may need: the blocks it may have to emit, and the end of the frame.
  function Bound(f: Info, autoFlush: bool, srcSize: nat, buffered: nat): nat
    requires InfoOk(f)
  {
    var blockSize := BlockSizeOf(f.blockSizeID);
    var maxSrcSize := srcSize + if buffered < blockSize then buffered else blockSize - 1;
    Cost(f, autoFlush || srcSize == 0, maxSrcSize) + 4 + 4 * Bit(f.contentSum)
  }

  // What the caller can know: the bound for the most that can be buffered.
  function CompressBound(f: Info, autoFlush: bool, srcSize: nat): nat
    requires InfoOk(f)
  {
    Bound(f, autoFlush, srcSize, BlockSizeOf(f.blockSizeID) - 1)
  }

  // The bound grows with what is buffered, so LZ4F_compressBound covers every update.
  lemma BoundMonotone(f: Info, autoFlush: bool, srcSize: nat, a: nat, b: nat)
    requires InfoOk(f) && a <= b
    ensures Bound(f, autoFlush, srcSize, a) <= Bound(f, autoFlush, srcSize, b)
  {
    hide BlockSizeOf, Cost;
    SomeBlock(f);
    var bs := BlockSizeOf(f.blockSizeID);
    var x := srcSize + if a < bs then a else bs - 1;
    var y := srcSize + if b < bs then b else bs - 1;
    CostMonotone(f, autoFlush || srcSize == 0, x, y);
  }

  lemma CostMonotone(f: Info, flush: bool, x: nat, y: nat)
    requires InfoOk(f) && x <= y
    ensures Cost(f, flush, x) <= Cost(f, flush, y)
  {
    hide BlockSizeOf, CrcSize, Blocks;
    SomeBlock(f);
    BlocksMonotone(BlockSizeOf(f.blockSizeID), 4 + CrcSize(f), flush, x, y);
  }

  lemma BlocksMonotone(bs: nat, c: nat, flush: bool, x: nat, y: nat)
    requires bs > 0 && x <= y
    ensures Blocks(bs, c, flush, x) <= Blocks(bs, c, flush, y)
  {
    if flush {
      FlushedMonotone(x, y, bs, c);
    } else {
      DivMonotone(x, y, bs);
      Times(c, x / bs, y / bs);
      Times(bs, x / bs, y / bs);
    }
  }

  lemma SomeBlock(f: Info)
    requires InfoOk(f)
    ensures 0 < BlockSizeOf(f.blockSizeID) < UNCOMPRESSED
  {
  }

  // The number of blocks, the last one perhaps short, grows with the content.
  lemma FlushedMonotone(x: nat, y: nat, bs: nat, c: nat)
    requires x <= y && bs > 0
    ensures c * (x / bs + Bit(x % bs > 0)) + bs * (x / bs) + x % bs <= c * (y / bs + Bit(y % bs > 0)) + bs * (y / bs) + y % bs
  {
    DivMonotone(x, y, bs);
    assert bs * (x / bs) + x % bs == x && bs * (y / bs) + y % bs == y;
    Times(c, x / bs + Bit(x % bs > 0), y / bs + Bit(y % bs > 0));
  }

  lemma DivMonotone(x: nat, y: nat, d: nat)
    requires x <= y && d > 0
    ensures x / d <= y / d
  {
    var p, q := x / d, y / d;
    assert x == d * p + x % d && y == d * q + y % d;
    if p > q {
      Times(d, q + 1, p);
      assert false;
    }
  }

  lemma Times(c: nat, a: nat, b: nat)
    requires a <= b
    ensures c * a <= c * b
  {
  }

  // ---------------------------------------------------------------- the encoder

  datatype Outcome = Failed | Written(n: nat)

  datatype LastBlock = NotDone | FromTmpBuffer | FromSrcBuffer

  // The buffer of the encoder: a block and, for linked blocks, the history; when every call is
  // flushed only the history.
  function BufferSize(f: Info, autoFlush: bool): nat
    requires InfoOk(f)
  {
    if autoFlush then if f.linked then KB64 else 0
    else BlockSizeOf(f.blockSizeID) + if f.linked then KB128 else 0
  }

  lemma BufferRoom(f: Info, autoFlush: bool)
    requires InfoOk(f)
    ensures f.linked ==> KB64 <= BufferSize(f, autoFlush)
    ensures !autoFlush ==> BlockSizeOf(f.blockSizeID) <= BufferSize(f, autoFlush)
    ensures !autoFlush && f.linked ==> BlockSizeOf(f.blockSizeID) + KB128 == BufferSize(f, autoFlush)
    ensures !f.linked && !autoFlush ==> BlockSizeOf(f.blockSizeID) == BufferSize(f, autoFlush)
    ensures BlockSizeOf(f.blockSizeID) >= KB64
  {
  }

  lemma CostOfBlock(f: Info, autoFlush: bool, n: nat)
    requires InfoOk(f) && n >= BlockSizeOf(f.blockSizeID)
    ensures Cost(f, autoFlush, n)
         == 4 + CrcSize(f) + BlockSizeOf(f.blockSizeID) + Cost(f, autoFlush, n - BlockSizeOf(f.blockSizeID))
  {
    var bs, c := BlockSizeOf(f.blockSizeID), 4 + CrcSize(f);
    var q := n / bs;
    LessOne(n, bs);
    var last := if autoFlush then n % bs else 0;
    assert c * (q + Bit(last > 0)) == c + c * (q - 1 + Bit(last > 0));
    assert bs * q == bs + bs * (q - 1);
  }

  lemma LessOne(n: nat, d: nat)
    requires n >= d > 0
    ensures (n - d) / d == n / d - 1 && (n - d) % d == n % d
  {
    var q, r := n / d, n % d;
    assert n == d * q + r;
    if q == 0 {
      assert false;
    }
    assert n - d == d * (q - 1) + r;
    DivUnique(n - d, d, q - 1, r);
  }

  lemma DivUnique(n: nat, d: nat, q: nat, r: nat)
    requires d > 0 && n == d * q + r && r < d
    ensures n / d == q && n % d == r
  {
    var p, m := n / d, n % d;
    assert n == d * p + m;
    assert d * (p - q) == r - m;
    if p > q {
      Times(d, 1, p - q);
      assert false;
    }
    if p < q {
      Times(d, 1, q - p);
      assert false;
    }
  }

  lemma SmallDiv(n: nat, d: nat)
    requires n < d
    ensures n / d == 0 && n % d == n
  {
  }

  // The size of `n` bytes in stored blocks, the rest as a short block on a flush.
  ghost function StoredSize(f: Info, flush: bool, n: nat): nat
    requires InfoOk(f)
    decreases n
  {
    var bs, around := BlockSizeOf(f.blockSizeID), 4 + CrcSize(f);
    if n >= bs then around + bs + StoredSize(f, flush, n - bs)
    else if flush && n > 0 then around + n
    else 0
  }

  lemma {:induction false} CostIsStored(f: Info, flush: bool, n: nat)
    requires InfoOk(f)
    ensures Cost(f, flush, n) == StoredSize(f, flush, n)
    decreases n
  {
    hide Cost;
    if n >= BlockSizeOf(f.blockSizeID) {
      CostOfBlock(f, flush, n);
      CostIsStored(f, flush, n - BlockSizeOf(f.blockSizeID));
    } else {
      CostOfSmall(f, flush, n);
    }
  }

  lemma CostOfSmall(f: Info, flush: bool, n: nat)
    requires InfoOk(f) && n < BlockSizeOf(f.blockSizeID)
    ensures Cost(f, flush, n) == if flush && n > 0 then 4 + CrcSize(f) + n else 0
  {
    SmallDiv(n, BlockSizeOf(f.blockSizeID));
  }

  /** The bound is the size of what may have to be emitted when no block compresses, and of the end of
      the frame; an update that buffers less than a block needs no more. */
  lemma BoundIsWorst(f: Info, autoFlush: bool, srcSize: nat, buffered: nat)
    requires InfoOk(f) && buffered < BlockSizeOf(f.blockSizeID)
    ensures Bound(f, autoFlush, srcSize, buffered)
         == StoredSize(f, autoFlush || srcSize == 0, srcSize + buffered) + 4 + if f.contentSum then 4 else 0
  {
    hide Cost, StoredSize;
    CostIsStored(f, autoFlush || srcSize == 0, srcSize + buffered);
  }

  // The bound covers the cost of an update and leaves room for the end of the frame.
  lemma BoundCoversCost(f: Info, autoFlush: bool, srcSize: nat, buffered: nat)
    requires InfoOk(f) && buffered < BlockSizeOf(f.blockSizeID)
    ensures Cost(f, autoFlush, srcSize + buffered) + 4 + 4 * Bit(f.contentSum) <= Bound(f, autoFlush, srcSize, buffered)
  {
    hide BlockSizeOf, CrcSize;
    SomeBlock(f);
    var bs := BlockSizeOf(f.blockSizeID);
    var n := srcSize + buffered;
    Times(4 + CrcSize(f), n / bs, n / bs + Bit(n % bs > 0));
  }

  // Where the history of linked blocks lies: a region of tmpBuff, or bytes of the caller's source,
  // which stay in place during a call and, when the caller says so, after it.
  datatype Place = InTmp(at: nat, size: nat) | InSource(bytes: Bytes, stable: bool)

  // The history as the compressor reads it.
  function Held(place: Place, tmpBuff: Bytes): Bytes
    requires place.InTmp? ==> place.at + place.size <= |tmpBuff|
  {
    match place
    case InTmp(at, size) => tmpBuff[at..at + size]
    case InSource(bytes, _) => bytes
  }

  // It is an end of what has been compressed, and what is in tmpBuff of it lies before tmpIn.
  ghost predicate InPlace(linked: bool, place: Place, tmpIn: nat, tmpBuff: Bytes, hist: Bytes) {
    && (!linked ==> place.InTmp?) && (place.InTmp? ==> place.at + place.size <= tmpIn <= |tmpBuff|)
    && IsEnd(linked, Held(place, tmpBuff), hist)
  }

  // Writing from tmpIn on leaves it alone.
  lemma StaysInPlace(linked: bool, place: Place, tmpIn: nat, before: Bytes, now: Bytes, hist: Bytes)
    requires InPlace(linked, place, tmpIn, before, hist)
    requires |now| == |before| && (tmpIn <= |now| ==> now[..tmpIn] == before[..tmpIn])
    ensures InPlace(linked, place, tmpIn, now, hist)
  {
    hide IsEnd;
    if place.InTmp? {
      var a, e := place.at, place.at + place.size;
      assert now[a..e] == now[..tmpIn][a..e] && before[a..e] == before[..tmpIn][a..e];
    }
  }

  // The history after a block of `size` bytes at `at` of tmpBuff: joined to one that ends there.
  function Joined(place: Place, at: nat, size: nat): Place {
    if place.InTmp? && place.at + place.size == at then place.(size := place.size + size) else InTmp(at, size)
  }

  class Encoder {
    const k: Codec
    const pack: Pack
    const info: Info
    const autoFlush: bool
    var started: bool
    var maxBuffer: nat
    var tmpBuff: Bytes
    var tmpIn: nat
    var tmpInSize: nat
    var place: Place
    var calls: nat
    var total: nat
    var hashed: Bytes
    // The bytes written so far, the content they stand for, and the whole content received.
    ghost var out: Bytes
    ghost var hist: Bytes
    ghost var content: Bytes

    ghost predicate Limits()
      reads this
    {
      && InfoOk(info) && |tmpBuff| == maxBuffer
      && maxBuffer == BufferSize(info, autoFlush)
      && tmpIn + tmpInSize <= |tmpBuff|
      && (autoFlush ==> tmpInSize == 0)
      && (!autoFlush ==> tmpInSize < BlockSizeOf(info.blockSizeID) && tmpIn + BlockSizeOf(info.blockSizeID) <= maxBuffer)
      && (!info.linked ==> tmpIn == 0)
    }

    // The history is still in its place.
    ghost predicate DictOk()
      reads `place, `tmpIn, `tmpBuff, `hist
    {
      InPlace(info.linked, place, tmpIn, tmpBuff, hist)
    }

    // The block a content makes now: what the compressor gives for it with the history as it is.
    ghost function NextBlock(x: Bytes): Bytes
      requires DictOk() && |x| > 0
      reads `place, `tmpIn, `tmpBuff, `hist, `calls
    {
      Made(k, info, pack(calls, Held(place, tmpBuff), x, |x| - 1), x)
    }

    // The bytes written lead to what has been compressed.
    ghost predicate Leading()
      reads `out, `hist
    {
      CodecOk(k) && PackOk(k, pack) && InfoOk(info) && Leads(k, info, out, hist)
    }

    // Between calls: what is not compressed yet is buffered.
    ghost predicate Valid()
      reads this
    {
      && started && Leading() && DictOk() && Limits()
      && (place.InSource? ==> place.stable)
      && content == hist + tmpBuff[tmpIn..tmpIn + tmpInSize]
      && (info.contentSum ==> hashed == content)
      && (info.contentSize > 0 ==> total == |content|)
    }

    constructor (k: Codec, pack: Pack, prefs: Info, autoFlush: bool)
      requires prefs.blockSizeID == 0 || InfoOk(prefs)
      ensures this.k == k && this.pack == pack && this.autoFlush == autoFlush
      ensures this.info == if prefs.blockSizeID == 0 then prefs.(blockSizeID := 4) else prefs
      ensures !started
    {
      this.k, this.pack, this.autoFlush := k, pack, autoFlush;
      info := if prefs.blockSizeID == 0 then prefs.(blockSizeID := 4) else prefs;
      started := false;
      maxBuffer, tmpBuff, tmpIn, tmpInSize, place, calls, total, hashed := 0, [], 0, 0, InTmp(0, 0), 0, 0, [];
      out, hist, content := [], [], [];
    }

    // The frame header.
    method Begin(dst: array<Byte>, d0: nat, cap: nat) returns (r: Outcome)
      requires CodecOk(k) && PackOk(k, pack) && InfoOk(info) && d0 + cap <= dst.Length
      modifies this, dst
      ensures r.Failed? <==> cap < MAX_HEADER
      ensures r.Written? ==> r.n <= MAX_HEADER && Valid() && out == dst[d0..d0 + r.n] && content == []
      ensures forall a :: 0 <= a < dst.Length && !(d0 <= a < d0 + cap) ==> dst[a] == old(dst[a])
    {
      hide HeaderBytes, Leads, CodecOk, PackOk, Valid;
      if cap < MAX_HEADER {
        return Failed;
      }
      HeaderLeads(k, info);
      var header := HeaderBytes(k, info);
      WriteBytes(dst, d0, header);
      Start();
      r := Written(|header|);
    }

    // Buffers and state at the start of a frame.
    method Start()
      requires CodecOk(k) && PackOk(k, pack) && InfoOk(info)
      modifies this
      ensures Valid() && out == HeaderBytes(k, info) && content == []
    {
      hide HeaderBytes, Leads, CodecOk, PackOk, BufferSize, BlockSizeOf;
      maxBuffer := BufferSize(info, autoFlush);
      BufferRoom(info, autoFlush);
      tmpBuff := seq(maxBuffer, _ => 0);
      tmpIn, tmpInSize, place, total, hashed := 0, 0, InTmp(0, 0), 0, [];
      HeaderLeads(k, info);
      started := true;
      out, hist, content := HeaderBytes(k, info), [], [];
      assert hist + tmpBuff[0..0] == [];
    }

    // One block of content `x`, compressed or, when that does not make it smaller, as it is.  The
    // compressor may write any bytes as far as its capacity, one byte less than `x`, reaches.
    method MakeBlock(dst: array<Byte>, d: nat, x: Bytes) returns (n: nat)
      requires Leading() && DictOk() && 0 < |x| <= BlockSizeOf(info.blockSizeID)
      requires d + 4 + |x| + CrcSize(info) <= dst.Length
      modifies this`calls, this`out, this`hist, dst
      ensures Leading() && hist == old(hist) + x && n <= 4 + |x| + CrcSize(info)
      ensures calls == old(calls) + 1
      ensures d + n <= dst.Length && dst[d..d + n] == old(NextBlock(x))
      ensures out == old(out) + dst[d..d + n]
      ensures forall a :: 0 <= a < dst.Length && !(d <= a < d + n) && !(d + 4 <= a < d + 3 + |x|) ==> dst[a] == old(dst[a])
    {
      hide Leads, CodecOk, PackOk, BlockOf, BlockBytes, Packed;
      var held := Held(place, tmpBuff);
      var packed := pack(calls, held, x, |x| - 1);
      calls := calls + 1;
      var word, payload;
      if packed.None? {
        word, payload := |x| + UNCOMPRESSED, x;
        StoredBlock(k, info, hist, x);
      } else {
        word, payload := |packed.value|, packed.value;
        PackedBlock(k, info, pack, calls - 1, held, hist, x);
      }
      BlockSize(k, info, word, payload);
      var block := BlockBytes(k, info, word, payload);
      var junk := AnyBytes(|x| - 1);
      WriteBytes(dst, d + 4, junk);
      WriteBytes(dst, d, block);
      BlockLeads(k, info, out, hist, word, payload, x);
      n := |block|;
      out, hist := out + block, hist + x;
    }

    // A block of the caller's source.  The blocks of one call lie one after the other; an earlier
    // history elsewhere is given up.
    method SourceBlock(dst: array<Byte>, d: nat, x: Bytes) returns (n: nat)
      requires Leading() && DictOk() && 0 < |x| <= BlockSizeOf(info.blockSizeID)
      requires d + 4 + |x| + CrcSize(info) <= dst.Length
      modifies this`place, this`calls, this`out, this`hist, dst
      ensures Leading() && DictOk() && hist == old(hist) + x && n <= 4 + |x| + CrcSize(info)
      ensures place == if !info.linked then old(place) else
        InSource(if old(place).InSource? && !old(place).stable then old(place).bytes + x else x, false)
      ensures calls == old(calls) + 1
      ensures d + n <= dst.Length && dst[d..d + n] == old(NextBlock(x))
      ensures out == old(out) + dst[d..d + n]
      ensures forall a :: 0 <= a < dst.Length && !(d <= a < d + 4 + |x| + CrcSize(info)) ==> dst[a] == old(dst[a])
    {
      hide Leading, BlockSizeOf, IsEnd;
      EndGrows(info.linked, Held(place, tmpBuff), hist, x);
      n := MakeBlock(dst, d, x);
      if info.linked {
        place := InSource(if place.InSource? && !place.stable then place.bytes + x else x, false);
      }
    }

    // The block buffered in tmpBuff: it joins a history that ends where it begins.
    method TmpBlock(dst: array<Byte>, d: nat) returns (n: nat)
      requires Leading() && DictOk() && 0 < tmpInSize <= BlockSizeOf(info.blockSizeID) && tmpIn + tmpInSize <= |tmpBuff|
      requires d + 4 + tmpInSize + CrcSize(info) <= dst.Length
      modifies this`place, this`calls, this`out, this`hist, this`tmpIn, this`tmpInSize, dst
      ensures Leading() && DictOk() && n <= 4 + old(tmpInSize) + CrcSize(info)
      ensures hist == old(hist) + tmpBuff[old(tmpIn)..old(tmpIn) + old(tmpInSize)]
      ensures tmpInSize == 0 && tmpIn == if info.linked then old(tmpIn) + old(tmpInSize) else old(tmpIn)
      ensures place.InTmp? && (info.linked ==> place == Joined(old(place), old(tmpIn), old(tmpInSize)))
      ensures calls == old(calls) + 1
      ensures d + n <= dst.Length && dst[d..d + n] == old(NextBlock(tmpBuff[tmpIn..tmpIn + tmpInSize]))
      ensures out == old(out) + dst[d..d + n]
      ensures forall a :: 0 <= a < dst.Length && !(d <= a < d + 4 + old(tmpInSize) + CrcSize(info)) ==> dst[a] == old(dst[a])
    {
      hide Leading, BlockSizeOf, IsEnd;
      var x := tmpBuff[tmpIn..tmpIn + tmpInSize];
      EndGrows(info.linked, Held(place, tmpBuff), hist, x);
      n := MakeBlock(dst, d, x);
      if info.linked {
        if place.InTmp? && place.at + place.size == tmpIn {
          JoinedSlices(tmpBuff, place.at, tmpIn, tmpIn + tmpInSize);
        }
        place := Joined(place, tmpIn, tmpInSize);
        tmpIn := tmpIn + tmpInSize;
      }
      tmpInSize := 0;
    }

    // Keep the last 64 KB of the history at the start of the buffer; returns how much there is.
    method SaveDict() returns (size: nat)
      requires info.linked && DictOk() && KB64 <= |tmpBuff|
      modifies this`place, this`tmpBuff
      ensures |tmpBuff| == old(|tmpBuff|) && size <= KB64 && (|hist| > 0 ==> size > 0)
      ensures size == Min(old(|Held(place, tmpBuff)|), KB64)
      ensures place == InTmp(0, size) && IsEnd(true, Held(place, tmpBuff), hist)
    {
      hide IsEnd;
      var held := Held(place, tmpBuff);
      size := Min(|held|, KB64);
      SavedEnd(held, hist, tmpBuff, size);
      tmpBuff := held[|held| - size..] + tmpBuff[size..];
      place := InTmp(0, size);
    }

    // Inside an update: what is compressed, buffered and still to be taken is all that was given.
    ghost predicate During(src: Bytes, i: nat)
      reads this
    {
      && started && InfoOk(info) && Leading() && DictOk() && i <= |src|
      && |tmpBuff| == maxBuffer == BufferSize(info, autoFlush) && tmpIn + tmpInSize <= |tmpBuff|
      && (!info.linked ==> tmpIn == 0)
      && (info.contentSum ==> hashed == content) && (info.contentSize > 0 ==> total == |content|)
      && hist + tmpBuff[tmpIn..tmpIn + tmpInSize] + src[i..] == content + src
    }

    // Move the first `n` bytes of the input into the buffer, behind what is there.
    method Fill(src: Bytes, n: nat)
      requires Valid() && n <= |src| && tmpIn + tmpInSize + n <= |tmpBuff|
      modifies this`tmpBuff, this`tmpInSize
      ensures During(src, n) && tmpInSize == old(tmpInSize) + n
    {
      hide Leading, InPlace, BufferSize, BlockSizeOf;
      FilledMore(hist, tmpBuff, tmpIn, tmpInSize, src, n);
      ghost var before := tmpBuff;
      tmpBuff := tmpBuff[..tmpIn + tmpInSize] + src[..n] + tmpBuff[tmpIn + tmpInSize + n..];
      StaysInPlace(info.linked, place, tmpIn, before, tmpBuff, hist);
      tmpInSize := tmpInSize + n;
    }

    // Emit what is buffered as a block.
    method EmitTmp(dst: array<Byte>, d: nat, src: Bytes, i: nat) returns (n: nat)
      requires During(src, i) && 0 < tmpInSize <= BlockSizeOf(info.blockSizeID)
      requires d + 4 + tmpInSize + CrcSize(info) <= dst.Length
      modifies this`place, this`calls, this`out, this`hist, this`tmpIn, this`tmpInSize, dst
      ensures During(src, i) && tmpInSize == 0 && |hist| > 0 && place.InTmp?
      ensures tmpIn == if info.linked then old(tmpIn) + old(tmpInSize) else old(tmpIn)
      ensures n <= 4 + old(tmpInSize) + CrcSize(info) && out == old(out) + dst[d..d + n]
      ensures forall a :: 0 <= a < dst.Length && !(d <= a < d + 4 + old(tmpInSize) + CrcSize(info)) ==> dst[a] == old(dst[a])
    {
      hide Leading, DictOk, BufferSize, BlockSizeOf;
      ghost var x := tmpBuff[tmpIn..tmpIn + tmpInSize];
      n := TmpBlock(dst, d);
      assert tmpBuff[tmpIn..tmpIn] == [];
      assert hist + [] + src[i..] == old(hist) + x + src[i..];
    }

    // Complete the block begun in the buffer, or buffer all of a short input.
    method CompleteTmp(dst: array<Byte>, d: nat, src: Bytes) returns (i: nat, e: nat, last: LastBlock)
      requires Valid() && tmpInSize > 0
      requires d + Cost(info, autoFlush, |src| + tmpInSize) <= dst.Length
      modifies this`place, this`calls, this`out, this`hist, this`tmpBuff, this`tmpIn, this`tmpInSize, dst
      ensures During(src, i) && d <= e <= dst.Length && (last.FromTmpBuffer? ==> |hist| > 0)
      ensures out == old(out) + dst[d..e]
      ensures e + Cost(info, autoFlush, tmpInSize + |src| - i) <= d + Cost(info, autoFlush, |src| + old(tmpInSize))
      ensures if last.NotDone? then i == |src| && tmpInSize < BlockSizeOf(info.blockSizeID) && tmpIn == old(tmpIn) && place == old(place)
              else last.FromTmpBuffer? && tmpInSize == 0 && place.InTmp?
      ensures forall a :: 0 <= a < dst.Length && !(d <= a < d + Cost(info, autoFlush, |src| + old(tmpInSize))) ==> dst[a] == old(dst[a])
    {
      hide Leading, BufferSize, BlockSizeOf, Cost;
      BufferRoom(info, autoFlush);
      var bs := BlockSizeOf(info.blockSizeID);
      var sizeToCopy := bs - tmpInSize;
      if sizeToCopy > |src| {
        Fill(src, |src|);
        assert dst[d..d] == [];
        return |src|, d, NotDone;
      }
      CostOfBlock(info, autoFlush, |src| + tmpInSize);
      Fill(src, sizeToCopy);
      var n := EmitTmp(dst, d, src, sizeToCopy);
      i, e, last := sizeToCopy, d + n, FromTmpBuffer;
    }

    // Emit the next bytes of the input as a block.
    method EmitSource(dst: array<Byte>, d: nat, src: Bytes, i: nat, size: nat) returns (n: nat)
      requires During(src, i) && tmpInSize == 0 && 0 < size <= BlockSizeOf(info.blockSizeID) && i + size <= |src|
      requires d + 4 + size + CrcSize(info) <= dst.Length
      modifies this`place, this`calls, this`out, this`hist, dst
      ensures During(src, i + size) && |hist| > 0 && (info.linked ==> place.InSource?)
      ensures n <= 4 + size + CrcSize(info) && out == old(out) + dst[d..d + n]
      ensures forall a :: 0 <= a < dst.Length && !(d <= a < d + 4 + size + CrcSize(info)) ==> dst[a] == old(dst[a])
    {
      hide Leading, DictOk, NextBlock, BufferSize, BlockSizeOf;
      TakenMore(hist, tmpBuff[tmpIn..tmpIn + tmpInSize], src, i, i + size);
      n := SourceBlock(dst, d, src[i..i + size]);
    }

    // The blocks that the input fills on its own.
    method FullBlocks(dst: array<Byte>, d0: nat, d: nat, src: Bytes, i0: nat, ghost before: Bytes, ghost end: nat)
      returns (i: nat, e: nat)
      requires During(src, i0) && d0 <= d <= dst.Length && out == before + dst[d0..d]
      requires i0 < |src| ==> tmpInSize == 0
      requires d + Cost(info, autoFlush, tmpInSize + |src| - i0) <= end <= dst.Length
      modifies this`place, this`calls, this`out, this`hist, dst
      ensures During(src, i) && i0 <= i && d <= e <= dst.Length && out == before + dst[d0..e]
      ensures |src| - i < BlockSizeOf(info.blockSizeID) || i == i0 == |src|
      ensures e + Cost(info, autoFlush, tmpInSize + |src| - i) <= end
      ensures i <= |src|
      ensures if i > i0 then |hist| > 0 && (info.linked ==> place.InSource?) else place == old(place) && hist == old(hist)
      ensures forall a :: 0 <= a < dst.Length && !(d <= a < end) ==> dst[a] == old(dst[a])
    {
      hide Leading, DictOk, BufferSize, BlockSizeOf, Cost;
      BufferRoom(info, autoFlush);
      var bs := BlockSizeOf(info.blockSizeID);
      i, e := i0, d;
      while |src| - i >= bs
        invariant During(src, i) && i0 <= i && d <= e <= dst.Length && out == before + dst[d0..e]
        invariant i < |src| ==> tmpInSize == 0
        invariant e + Cost(info, autoFlush, tmpInSize + |src| - i) <= end
        invariant if i > i0 then |hist| > 0 && (info.linked ==> place.InSource?) else place == old(place) && hist == old(hist)
        invariant forall a :: 0 <= a < dst.Length && !(d <= a < end) ==> dst[a] == old(dst[a])
      {
        CostOfBlock(info, autoFlush, tmpInSize + |src| - i);
        ghost var was := dst[d0..e];
        var n := EmitSource(dst, e, src, i, bs);
        assert dst[d0..e] == was;
        JoinedSlices(dst[..], d0, e, e + n);
        i, e := i + bs, e + n;
      }
    }

    lemma DuringStarts(src: Bytes)
      requires Valid()
      ensures During(src, 0)
    {
      hide Leading, DictOk, BufferSize, BlockSizeOf;
      NothingTaken(hist, tmpBuff[tmpIn..tmpIn + tmpInSize], content, src);
    }

    // All blocks of an update; `last` tells where the last one came from.
    method EmitBlocks(dst: array<Byte>, d0: nat, src: Bytes) returns (i: nat, e: nat, last: LastBlock)
      requires Valid() && d0 + Cost(info, autoFlush, |src| + tmpInSize) <= dst.Length
      modifies this`place, this`calls, this`out, this`hist, this`tmpBuff, this`tmpIn, this`tmpInSize, dst
      ensures During(src, i) && d0 <= e && e <= d0 + Cost(info, autoFlush, |src| + old(tmpInSize))
      ensures e <= dst.Length && out == old(out) + dst[d0..e]
      ensures i < |src| ==> tmpInSize == 0 && !autoFlush
      ensures autoFlush ==> tmpInSize == 0
      ensures |src| - i < BlockSizeOf(info.blockSizeID) && tmpInSize < BlockSizeOf(info.blockSizeID)
      ensures last.NotDone? ==> tmpIn == old(tmpIn) && place == old(place)
      ensures last.FromSrcBuffer? ==> tmpInSize == 0 && |hist| > 0 && (info.linked ==> place.InSource?)
      ensures last.FromTmpBuffer? ==> tmpInSize == 0 && |hist| > 0 && place.InTmp?
      ensures forall a :: 0 <= a < dst.Length && !(d0 <= a < d0 + Cost(info, autoFlush, |src| + old(tmpInSize))) ==> dst[a] == old(dst[a])
    {
      hide Leading, DictOk, During, BufferSize, BlockSizeOf, Cost;
      BufferRoom(info, autoFlush);
      ghost var before, end := out, d0 + Cost(info, autoFlush, |src| + tmpInSize);
      i, e, last := 0, d0, NotDone;
      if tmpInSize > 0 {
        i, e, last := CompleteTmp(dst, d0, src);
      } else {
        DuringStarts(src);
        assert dst[d0..d0] == [];
      }
      var j := i;
      i, e := FullBlocks(dst, d0, e, src, i, before, end);
      if i > j {
        last := FromSrcBuffer;
      }
      if autoFlush && i < |src| {
        CostOfSmall(info, true, |src| - i);
        ghost var was := dst[d0..e];
        var n := EmitSource(dst, e, src, i, |src| - i);
        assert dst[d0..e] == was;
        JoinedSlices(dst[..], d0, e, e + n);
        i, e, last := |src|, e + n, FromSrcBuffer;
      }
    }

    // Put the buffer behind the saved history, when nothing is buffered.
    method BehindHistory(src: Bytes, i: nat) returns (size: nat)
      requires During(src, i) && tmpInSize == 0 && info.linked && |hist| > 0
      modifies this`place, this`tmpBuff, this`tmpIn
      ensures During(src, i) && 0 < size == tmpIn <= KB64 && place.InTmp?
    {
      hide Leads, CodecOk, PackOk, BufferSize, BlockSizeOf;
      BufferRoom(info, autoFlush);
      assert tmpBuff[tmpIn..tmpIn] == [];
      size := SaveDict();
      tmpIn := size;
      assert tmpBuff[tmpIn..tmpIn] == [];
    }

    // Where the next input is buffered: behind the history kept for linked blocks.
    method PlaceTmp(src: Bytes, i: nat, last: LastBlock, stableSrc: bool) returns (ok: bool)
      requires During(src, i) && (last.FromSrcBuffer? || last.FromTmpBuffer? ==> tmpInSize == 0 && |hist| > 0)
      requires last.NotDone? && !autoFlush ==> tmpIn + BlockSizeOf(info.blockSizeID) <= maxBuffer
      requires if last.FromSrcBuffer? then info.linked ==> place.InSource? else place.InSource? ==> place.stable
      modifies this`place, this`tmpBuff, this`tmpIn
      ensures ok && During(src, i) && (place.InSource? ==> place.stable)
      ensures !autoFlush ==> tmpIn + BlockSizeOf(info.blockSizeID) <= maxBuffer
    {
      hide Leads, CodecOk, PackOk, BufferSize, BlockSizeOf;
      BufferRoom(info, autoFlush);
      ok := true;
      if info.linked && last.FromSrcBuffer? {
        if stableSrc {
          assert tmpBuff[tmpIn..tmpIn] == [] == tmpBuff[0..0];
          place, tmpIn := place.(stable := true), 0;
        } else {
          var realDictSize := BehindHistory(src, i);
          ok := realDictSize != 0;
        }
      }
      if tmpIn + BlockSizeOf(info.blockSizeID) > maxBuffer && !autoFlush {
        var _ := BehindHistory(src, i);
      }
    }

    // Take more content.  All of it is compressed or buffered, and the call never needs more than
    // the bound it asks for.
    method Update(dst: array<Byte>, d0: nat, cap: nat, src: Bytes, stableSrc: bool) returns (r: Outcome)
      requires started ==> Valid()
      requires InfoOk(info) && d0 + cap <= dst.Length
      modifies this, dst
      ensures r.Failed? <==> !old(started) || cap < Bound(info, autoFlush, |src|, old(tmpInSize))
      ensures r.Written? ==> Valid() && content == old(content) + src
      ensures r.Written? ==> r.n <= cap && out == old(out) + dst[d0..d0 + r.n]
      ensures r.Written? ==> r.n + 4 + 4 * Bit(info.contentSum) <= Bound(info, autoFlush, |src|, old(tmpInSize))
      ensures forall a :: 0 <= a < dst.Length && !(d0 <= a < d0 + cap) ==> dst[a] == old(dst[a])
    {
      hide Leading, BufferSize, BlockSizeOf, Cost, Bound;
      if !started || cap < Bound(info, autoFlush, |src|, tmpInSize) {
        return Failed;
      }
      BufferRoom(info, autoFlush);
      BoundCoversCost(info, autoFlush, |src|, tmpInSize);
      var i, e, last := EmitBlocks(dst, d0, src);
      var ok := PlaceTmp(src, i, last, stableSrc);
      if !ok {
        return Failed;
      }
      KeepRest(src, i);
      r := Written(e - d0);
    }

    // Buffer what is left of the input and count it.
    method KeepRest(src: Bytes, i: nat)
      requires During(src, i) && |src| - i < BlockSizeOf(info.blockSizeID) && tmpInSize < BlockSizeOf(info.blockSizeID)
      requires place.InSource? ==> place.stable
      requires i < |src| ==> tmpInSize == 0 && !autoFlush
      requires autoFlush ==> tmpInSize == 0
      requires !autoFlush ==> tmpIn + BlockSizeOf(info.blockSizeID) <= maxBuffer
      modifies this`tmpBuff, this`tmpInSize, this`hashed, this`total, this`content
      ensures Valid() && content == old(content) + src
    {
      hide Leading, InPlace, BufferSize, BlockSizeOf;
      if i < |src| {
        var rest := src[i..];
        FilledMore(hist, tmpBuff, tmpIn, 0, rest, |rest|);
        assert rest[..|rest|] == rest && rest[|rest|..] == [] && tmpBuff[tmpIn..tmpIn + 0] == [];
        ghost var before := tmpBuff;
        tmpBuff := tmpBuff[..tmpIn] + rest + tmpBuff[tmpIn + |rest|..];
        StaysInPlace(info.linked, place, tmpIn, before, tmpBuff, hist);
        tmpInSize := |rest|;
        assert hist + tmpBuff[tmpIn..tmpIn + tmpInSize] == content + src;
      } else {
        assert src[i..] == [];
        assert hist + tmpBuff[tmpIn..tmpIn + tmpInSize] + [] == hist + tmpBuff[tmpIn..tmpIn + tmpInSize];
      }
      if info.contentSum {
        hashed := hashed + src;
      }
      total := total + |src|;
      content := content + src;
    }

    // Emit what is buffered now.
    method Flush(dst: array<Byte>, d0: nat, cap: nat) returns (r: Outcome)
      requires Valid() && d0 + cap <= dst.Length
      modifies this, dst
      ensures r.Failed? <==> old(tmpInSize) > 0 && cap < old(tmpInSize) + 8
      ensures !r.Failed? ==> Valid() && content == old(content) && tmpInSize == 0 && hist == content
      ensures r.Written? ==> r.n <= cap && out == old(out) + dst[d0..d0 + r.n]
      ensures r.Written? ==> r.n <= if old(tmpInSize) > 0 then 4 + old(tmpInSize) + CrcSize(info) else 0
      ensures forall a :: 0 <= a < dst.Length && !(d0 <= a < d0 + cap) ==> dst[a] == old(dst[a])
    {
      hide Leading, BufferSize, BlockSizeOf;
      BufferRoom(info, autoFlush);
      if tmpInSize == 0 {
        assert dst[d0..d0] == [];
        return Written(0);
      }
      if cap < tmpInSize + 8 {
        return Failed;
      }
      ghost var whole := content;
      NothingTaken(hist, tmpBuff[tmpIn..tmpIn + tmpInSize], content, []);
      var n := EmitTmp(dst, d0, [], 0);
      var ok := PlaceTmp([], 0, FromTmpBuffer, false);
      assert hist + tmpBuff[tmpIn..tmpIn] + [] == hist && whole + [] == whole;
      r := Written(n);
    }

    // Flush, the end mark, the content checksum; the frame is complete.  `flushed` is the size of
    // the block that the flush writes.
    method End(dst: array<Byte>, d0: nat, cap: nat) returns (r: Outcome, ghost flushed: nat)
      requires Valid() && d0 + cap <= dst.Length
      modifies this, dst
      ensures r.Written? ==> r.n <= cap && out == old(out) + dst[d0..d0 + r.n] && content == old(content) && !started
      ensures r.Written? ==> ReadFrame(k, out, 0) == Complete(content, |out|, {}, false)
      ensures flushed <= if old(tmpInSize) > 0 then 4 + old(tmpInSize) + CrcSize(info) else 0
      ensures r.Failed? <==> (old(tmpInSize) > 0 && cap < old(tmpInSize) + 8)
                             || cap < flushed + 4 + 4 * Bit(info.contentSum)
                             || (info.contentSize > 0 && |old(content)| != info.contentSize)
      ensures r.Failed? ==> cap < CompressBound(info, autoFlush, 0) || (info.contentSize > 0 && |old(content)| != info.contentSize)
      ensures r.Written? ==> info.contentSize == 0 || |content| == info.contentSize
      ensures forall a :: 0 <= a < dst.Length && !(d0 <= a < d0 + cap) ==> dst[a] == old(dst[a])
    {
      hide Valid, CompressBound, ReadFrame, CrcSize, Bit;
      BeforeEnd();
      flushed := 0;
      r := Flush(dst, d0, cap);
      if r.Failed? {
        return;
      }
      var n := r.n;
      flushed := n;
      ghost var was, before := dst[d0..d0 + n], out;
      r := Finish(dst, d0 + n, cap - n);
      if r.Written? {
        assert dst[d0..d0 + n] == was;
        JoinedOut(dst[..], old(out), before, out, d0, n, r.n);
        r := Written(n + r.n);
      }
    }

    // LZ4F_compressBound, which does not know what is buffered, covers an update.
    lemma EnoughForUpdate(srcSize: nat)
      requires Valid()
      ensures InfoOk(info) && Bound(info, autoFlush, srcSize, tmpInSize) <= CompressBound(info, autoFlush, srcSize)
    {
      hide Bound;
      BufferRoom(info, autoFlush);
      BoundMonotone(info, autoFlush, srcSize, tmpInSize, BlockSizeOf(info.blockSizeID) - 1);
    }

    lemma BeforeEnd()
      requires Valid()
      ensures InfoOk(info)
      ensures tmpInSize + 8 <= CompressBound(info, autoFlush, 0)
      ensures 4 + tmpInSize + CrcSize(info) + 4 + 4 * Bit(info.contentSum) <= CompressBound(info, autoFlush, 0)
    {
      BufferRoom(info, autoFlush);
      EndFits(info, autoFlush, tmpInSize);
    }

    // The end mark and the checksum, nothing being buffered any more.
    method Finish(dst: array<Byte>, d: nat, cap: nat) returns (r: Outcome)
      requires Valid() && hist == content && d + cap <= dst.Length
      modifies this, dst
      ensures r.Failed? <==> cap < 4 + 4 * Bit(info.contentSum) || (info.contentSize > 0 && |content| != info.contentSize)
      ensures content == old(content)
      ensures r.Written? ==> r.n <= cap && out == old(out) + dst[d..d + r.n] && !started
      ensures r.Written? ==> info.contentSize == 0 || |content| == info.contentSize
      ensures r.Written? ==> ReadFrame(k, out, 0) == Complete(content, |out|, {}, false)
      ensures forall a :: 0 <= a < dst.Length && !(d <= a < d + cap) ==> dst[a] == old(dst[a])
    {
      hide Leading, Limits, ReadFrame, EndBytes;
      var end := EndBytes(k, info, hashed);
      EndSize(k, info, hashed, content);
      if cap < |end| {
        return Failed;
      }
      WriteBytes(dst, d, end);
      if info.contentSize > 0 && info.contentSize != total {
        started, maxBuffer := false, 0;
        return Failed;
      }
      LeadingToEnd(end);
      started, maxBuffer := false, 0;
      out := out + end;
      r := Written(|end|);
    }

    lemma LeadingToEnd(end: Bytes)
      requires Leading() && content == hist && (info.contentSize > 0 ==> |content| == info.contentSize)
      requires end == EndBytes(k, info, content)
      ensures ReadFrame(k, out + end, 0) == Complete(content, |out + end|, {}, false)
    {
      hide EndBytes, Leads, ReadFrame;
      EndLeads(k, info, out, content);
    }
  }

  // LZ4F_compressBound(0) is enough to flush whatever is buffered and to end the frame.
  lemma EndFits(f: Info, autoFlush: bool, buffered: nat)
    requires InfoOk(f) && buffered < BlockSizeOf(f.blockSizeID)
    ensures buffered + 8 <= CompressBound(f, autoFlush, 0)
    ensures 4 + buffered + CrcSize(f) + 4 + 4 * Bit(f.contentSum) <= CompressBound(f, autoFlush, 0)
    ensures 4 + 4 * Bit(f.contentSum) <= CompressBound(f, autoFlush, 0)
  {
    SmallDiv(BlockSizeOf(f.blockSizeID) - 1, BlockSizeOf(f.blockSizeID));
  }

  lemma EndSize(k: Codec, f: Info, hashed: Bytes, content: Bytes)
    requires f.contentSum ==> hashed == content
    ensures |EndBytes(k, f, hashed)| == 4 + 4 * Bit(f.contentSum)
    ensures EndBytes(k, f, hashed) == EndBytes(k, f, content)
  {
  }

  lemma StoredBlock(k: Codec, f: Info, hist: Bytes, x: Bytes)
    requires InfoOk(f) && 0 < |x| <= BlockSizeOf(f.blockSizeID)
    ensures BlockOf(k, f, |x| + UNCOMPRESSED, x, hist, x)
  {
  }

  lemma PackedBlock(k: Codec, f: Info, pack: Pack, n: nat, dict: Bytes, hist: Bytes, x: Bytes)
    requires CodecOk(k) && PackOk(k, pack) && InfoOk(f) && 0 < |x| <= BlockSizeOf(f.blockSizeID)
    requires pack(n, dict, x, |x| - 1).Some?
    requires if f.linked then |dict| <= |hist| && dict == hist[|hist| - |dict|..] else dict == []
    ensures var b := pack(n, dict, x, |x| - 1).value;
      0 < |b| < |x| && BlockOf(k, f, |b|, b, hist, x)
  {
    hide CodecOk, PackOk, Packed, Tail, BlockSizeOf;
    var b, m := pack(n, dict, x, |x| - 1).value, BlockSizeOf(f.blockSizeID);
    SomeBlock(f);
    PackFact(k, pack, n, dict, x, |x| - 1, m);
    SuffixTail(hist, dict, f.linked);
    DecodeFact(k, b, dict, History(f, hist), m, x);
  }

  lemma PackFact(k: Codec, pack: Pack, n: nat, h: Bytes, x: Bytes, cap: nat, m: nat)
    requires PackOk(k, pack) && pack(n, h, x, cap).Some? && |x| <= m
    ensures var b := pack(n, h, x, cap).value; 0 < |b| <= cap && Unpacks(k, b, h, m, x)
  {
    assert Packed(k, pack(n, h, x, cap).value, h, x, cap);
  }

  lemma DecodeFact(k: Codec, b: Bytes, h: Bytes, d: Bytes, m: nat, x: Bytes)
    requires CodecOk(k) && Unpacks(k, b, h, m, x) && Tail(d, h)
    ensures Unpacks(k, b, d, m, x)
  {
    hide Tail;
  }

  lemma SuffixTail(hist: Bytes, dict: Bytes, linked: bool)
    requires if linked then |dict| <= |hist| && dict == hist[|hist| - |dict|..] else dict == []
    ensures Tail(if linked then hist else [], dict)
  {
    if linked {
      var m := if |dict| < KB64 then |dict| else KB64;
      assert hist[|hist| - m..] == dict[|dict| - m..];
    }
  }

  // `held` is an end of `hist`, or empty when blocks are independent.
  ghost predicate IsEnd(linked: bool, held: Bytes, hist: Bytes) {
    if linked then |held| <= |hist| && held == hist[|hist| - |held|..] && (|hist| > 0 ==> |held| > 0)
    else held == []
  }

  // After a block the history held may grow by it or begin with it.
  lemma EndGrows(linked: bool, held: Bytes, hist: Bytes, x: Bytes)
    requires IsEnd(linked, held, hist) && |x| > 0
    ensures linked ==> IsEnd(true, held + x, hist + x) && IsEnd(true, x, hist + x)
    ensures !linked ==> IsEnd(false, held, hist + x)
  {
  }

  lemma BlockSize(k: Codec, f: Info, word: nat, payload: Bytes)
    ensures |BlockBytes(k, f, word, payload)| == 4 + |payload| + CrcSize(f)
  {
  }

  // The end of the history, put at the start of a buffer.
  lemma SavedEnd(held: Bytes, hist: Bytes, buf: Bytes, size: nat)
    requires IsEnd(true, held, hist) && size == Min(|held|, KB64) && KB64 <= |buf|
    ensures var saved := held[|held| - size..];
      && |saved + buf[size..]| == |buf| && (saved + buf[size..])[0..size] == saved && IsEnd(true, saved, hist)
      && (|hist| > 0 ==> size > 0)
  {
    var saved := held[|held| - size..];
    assert saved == hist[|hist| - size..];
  }

  // Two pieces written one after the other are one piece.
  lemma JoinedOut(all: Bytes, out0: Bytes, out1: Bytes, out2: Bytes, d: nat, n: nat, m: nat)
    requires d + n + m <= |all| && out1 == out0 + all[d..d + n] && out2 == out1 + all[d + n..d + n + m]
    ensures out2 == out0 + all[d..d + n + m]
  {
  }

  // Bytes moved from the input into the buffer change nothing of the whole.
  lemma FilledMore(hist: Bytes, buf: Bytes, at: nat, size: nat, src: Bytes, n: nat)
    requires n <= |src| && at + size + n <= |buf|
    ensures var now := buf[..at + size] + src[..n] + buf[at + size + n..];
      |now| == |buf| && now[at..at + size + n] == buf[at..at + size] + src[..n]
      && hist + now[at..at + size + n] + src[n..] == hist + buf[at..at + size] + src
  {
    var now := buf[..at + size] + src[..n] + buf[at + size + n..];
    assert now[at..at + size + n] == buf[at..at + size] + src[..n];
    assert src == src[..n] + src[n..];
  }

  // A piece of the input compressed while nothing is buffered.
  lemma TakenMore(hist: Bytes, buffered: Bytes, src: Bytes, i: nat, j: nat)
    requires i <= j <= |src| && buffered == []
    ensures hist + src[i..j] + buffered + src[j..] == hist + buffered + src[i..]
  {
    assert src[i..] == src[i..j] + src[j..];
  }

  lemma NothingTaken(hist: Bytes, buffered: Bytes, content: Bytes, src: Bytes)
    requires content == hist + buffered
    ensures hist + buffered + src[0..] == content + src
  {
    assert src[0..] == src;
  }
}
