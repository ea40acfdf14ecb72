/**
  * The LZ4 frame format: header, data blocks, end mark and checksums, with a reference reader over
  * the whole byte stream.  The streaming encoder is proved to write frames the reference reader
  * accepts, the streaming decoder to deliver what it reads.  XXH32 and the block codec are
  * parameters; of the codec only its contract is used.
  *
  * The block decoder works in one of two modes, with the dictionary right in front of the output or
  * elsewhere, and accepts more in the first.  Which one the streaming decoder uses depends on the
  * capacities it is given, so the reader decodes in the first mode and notes the blocks the other
  * would refuse.
  */
module Lz4FrameFormat {
  import opened Basics
  import opened ByteSeq
  import opened Lz4Format

  const KB64: nat := 65536
  const KB128: nat := 131072
  const MAGIC: nat := 0x184D2204
  const MAGIC_SKIPPABLE: nat := 0x184D2A50
  const MIN_HEADER: nat := 7
  const MAX_HEADER: nat := 19
  const UNCOMPRESSED: nat := 0x8000_0000

  // ---------------------------------------------------------------- parameters

  // Where the dictionary of a block lies: right in front of the output, or elsewhere.
  datatype Mode = Prefix | External

  // `decode(block, dictionary, capacity, mode)` is the block decoder, `xxh` the checksum.
  datatype Codec = Codec(decode: (Bytes, Bytes, nat, Mode) -> Option<Bytes>, xxh: Bytes -> nat)

  // The most recent bytes of `h`, up to 64 KB, are the end of `d`.
  ghost predicate Tail(d: Bytes, h: Bytes) {
    var m := if |h| < KB64 then |h| else KB64;
    m <= |d| && d[|d| - m..] == h[|h| - m..]
  }

  // What is assumed of the codec: in either mode a block decodes the same with any dictionary that
  // ends in the history's last 64 KB, and never to more than the capacity; with an external
  // dictionary nothing is accepted that is not accepted, alike, with the dictionary in front.
  ghost predicate CodecOk(k: Codec) {
    && (forall b: Bytes, h: Bytes, d: Bytes, cap: nat, m: Mode ::
          k.decode(b, h, cap, m).Some? && Tail(d, h) ==> k.decode(b, d, cap, m) == k.decode(b, h, cap, m))
    && (forall b: Bytes, d: Bytes, cap: nat, m: Mode ::
          k.decode(b, d, cap, m).Some? ==> |k.decode(b, d, cap, m).value| <= cap)
    && (forall b: Bytes, d: Bytes, cap: nat :: Nested(k, b, d, cap))
    && (forall b: Bytes :: k.xxh(b) < 0x1_0000_0000)
  }

  // The two modes differ only for a block with content, and only with a dictionary.
  ghost predicate Nested(k: Codec, b: Bytes, d: Bytes, cap: nat) {
    var inFront, outside := k.decode(b, d, cap, Prefix), k.decode(b, d, cap, External);
    outside == inFront || (outside.None? && inFront.Some? && inFront.value != [] && d != [])
  }

  // The last bytes of two pieces, and of the last bytes.
  lemma EndOfJoin(d: Bytes, x: Bytes, w: nat)
    requires w <= |d| + |x|
    ensures (d + x)[|d + x| - w..] == if w <= |x| then x[|x| - w..] else d[|d| - (w - |x|)..] + x
  {
  }

  lemma EndOfEnd(d: Bytes, m: nat, r: nat)
    requires r <= m <= |d|
    ensures d[|d| - m..][m - r..] == d[|d| - r..]
  {
  }

  lemma JoinedSlices(t: Bytes, a: nat, b: nat, c: nat)
    requires a <= b <= c <= |t|
    ensures t[a..b] + t[b..c] == t[a..c]
  {
  }

  lemma TailAppend(d: Bytes, h: Bytes, x: Bytes)
    requires Tail(d, h)
    ensures Tail(d + x, h + x)
  {
    var m := if |h| < KB64 then |h| else KB64;
    var n := if |h + x| < KB64 then |h + x| else KB64;
    EndOfJoin(d, x, n);
    EndOfJoin(h, x, n);
    if |x| < n {
      EndOfEnd(d, m, n - |x|);
      EndOfEnd(h, m, n - |x|);
    }
  }

  // The end of a region that agrees with the history is as good as the region.
  lemma TailOfEnd(d: Bytes, h: Bytes, n: nat)
    requires Tail(d, h) && n <= |d| && n >= if |h| < KB64 then |h| else KB64
    ensures Tail(d[|d| - n..], h)
  {
    var m := if |h| < KB64 then |h| else KB64;
    assert d[|d| - n..][n - m..] == d[|d| - m..];
  }

  lemma SliceOfSlice(t: Bytes, off: nat, size: nat, a: nat, b: nat)
    requires a <= b <= size && off + size <= |t|
    ensures t[off..off + size][a..b] == t[off + a..off + b]
  {
    var u := t[off..off + size];
    forall i | 0 <= i < b - a
      ensures u[a..b][i] == t[off + a..off + b][i]
    {
      assert u[a..b][i] == u[a + i] == t[off + a + i];
    }
  }

  // ---------------------------------------------------------------- words

  function Word32(s: Bytes, at: nat): nat
    requires at + 4 <= |s|
  {
    FromLE(s[at..at + 4])
  }

  lemma WordOf(s: Bytes, at: nat, n: nat)
    requires at + 4 <= |s| && n < 0x1_0000_0000 && s[at..at + 4] == LE(n, 4)
    ensures Word32(s, at) == n
  {
    assert Pow256(4) == 0x1_0000_0000;
    LERoundTrip(n, 4);
  }

  // ---------------------------------------------------------------- the frame header

  datatype Info = Info(linked: bool, blockSum: bool, contentSum: bool, blockSizeID: nat, contentSize: nat, dictID: nat)

  ghost predicate InfoOk(f: Info) {
    4 <= f.blockSizeID <= 7 && f.contentSize < 0x1_0000_0000_0000_0000 && f.dictID < 0x1_0000_0000
  }

  function BlockSizeOf(id: nat): nat
    requires 4 <= id <= 7
  {
    [KB64, 4 * KB64, 16 * KB64, 64 * KB64][id - 4]
  }

  function Bit(b: bool): nat {
    if b then 1 else 0
  }

  function CrcSize(f: Info): nat {
    4 * Bit(f.blockSum)
  }

  // Version 01, block mode (1: independent), block checksum, content size, content checksum, dictionary.
  function Flags(f: Info): Byte {
    64 + 32 * Bit(!f.linked) + 16 * Bit(f.blockSum) + 8 * Bit(f.contentSize > 0) + 4 * Bit(f.contentSum) + Bit(f.dictID > 0)
  }

  function Descriptor(f: Info): Bytes
    requires InfoOk(f)
  {
    [Flags(f), 16 * f.blockSizeID]
    + (if f.contentSize > 0 then LE(f.contentSize, 8) else [])
    + (if f.dictID > 0 then LE(f.dictID, 4) else [])
  }

  function HeaderSum(k: Codec, descriptor: Bytes): Byte {
    k.xxh(descriptor) / 256 % 256
  }

  function HeaderBytes(k: Codec, f: Info): Bytes
    requires InfoOk(f)
  {
    LE(MAGIC, 4) + Descriptor(f) + [HeaderSum(k, Descriptor(f))]
  }

  // The size a header has, from its flag byte.
  function HeaderSize(flags: Byte): (r: nat)
    ensures MIN_HEADER <= r <= MAX_HEADER
  {
    MIN_HEADER + 8 * (flags / 8 % 2) + 4 * (flags % 2)
  }

  // A complete header `h`, or None when one of the checks fails.
  function ParseHeader(k: Codec, h: Bytes): (r: Option<Info>)
    requires MIN_HEADER <= |h| == HeaderSize(h[4])
    ensures r.Some? ==> InfoOk(r.value)
  {
    if Word32(h, 0) != MAGIC || !FlagsValid(h[4]) then None
    else if h[5] / 128 != 0 || h[5] / 16 % 8 < 4 || h[5] % 16 != 0 then None
    else if HeaderSum(k, h[4..|h| - 1]) != h[|h| - 1] then None
    else
      LE64Bound(if h[4] / 8 % 2 == 1 then h[6..14] else []);
      LE32Bound(if h[4] % 2 == 1 then h[|h| - 5..|h| - 1] else []);
      Some(Info(h[4] / 32 % 2 == 0, h[4] / 16 % 2 == 1, h[4] / 4 % 2 == 1, h[5] / 16 % 8,
                if h[4] / 8 % 2 == 1 then FromLE(h[6..14]) else 0,
                if h[4] % 2 == 1 then FromLE(h[|h| - 5..|h| - 1]) else 0))
  }

  // Reserved bit clear, version 01.
  predicate FlagsValid(flags: Byte) {
    flags / 2 % 2 == 0 && flags / 64 == 1
  }

  lemma {:induction false} FromLEBound(s: Bytes)
    ensures FromLE(s) < Pow256(|s|)
  {
    if s != [] {
      FromLEBound(s[1..]);
    }
  }

  lemma LE64Bound(s: Bytes)
    requires |s| <= 8
    ensures FromLE(s) < 0x1_0000_0000_0000_0000
  {
    FromLEBound(s);
    assert Pow256(4) == 0x1_0000_0000;
    assert Pow256(8) == 0x1_0000_0000_0000_0000;
    Pow256Grows(|s|, 8);
  }

  lemma LE32Bound(s: Bytes)
    requires |s| <= 4
    ensures FromLE(s) < 0x1_0000_0000
  {
    FromLEBound(s);
    assert Pow256(4) == 0x1_0000_0000;
    Pow256Grows(|s|, 4);
  }

  lemma {:induction false} Pow256Grows(a: nat, b: nat)
    requires a <= b
    ensures Pow256(a) <= Pow256(b)
    decreases b - a
  {
    if a < b {
      Pow256Grows(a + 1, b);
    }
  }

  // Reading a header back gives what was written.
  lemma HeaderRoundTrip(k: Codec, f: Info)
    requires InfoOk(f)
    ensures var h := HeaderBytes(k, f);
      MIN_HEADER <= |h| == HeaderSize(h[4]) && ParseHeader(k, h) == Some(f)
  {
    hide LE, FromLE, HeaderSum, Flags, Word32;
    var h := HeaderBytes(k, f);
    var sizes := if f.contentSize > 0 then LE(f.contentSize, 8) else [];
    var ids := if f.dictID > 0 then LE(f.dictID, 4) else [];
    FlagBits(f);
    HeaderLayout(LE(MAGIC, 4), Flags(f), 16 * f.blockSizeID, sizes, ids, HeaderSum(k, Descriptor(f)));
    assert h == LE(MAGIC, 4) + ([Flags(f), 16 * f.blockSizeID] + sizes + ids) + [HeaderSum(k, Descriptor(f))];
    WordOf(h, 0, MAGIC);
    Widths();
    if f.contentSize > 0 {
      LERoundTrip(f.contentSize, 8);
    }
    if f.dictID > 0 {
      LERoundTrip(f.dictID, 4);
    }
  }

  lemma HeaderLayout(magic: Bytes, flags: Byte, bd: Byte, sizes: Bytes, ids: Bytes, sum: Byte)
    requires |magic| == 4 && (|sizes| == 0 || |sizes| == 8) && (|ids| == 0 || |ids| == 4)
    ensures
      var h := magic + ([flags, bd] + sizes + ids) + [sum];
      && |h| == 7 + |sizes| + |ids| && h[0..4] == magic && h[4] == flags && h[5] == bd
      && h[4..|h| - 1] == [flags, bd] + sizes + ids && h[|h| - 1] == sum
      && (|sizes| == 8 ==> h[6..14] == sizes) && (|ids| == 4 ==> h[|h| - 5..|h| - 1] == ids)
  {
  }

  lemma FlagBits(f: Info)
    ensures var g := Flags(f);
      && g / 2 % 2 == 0 && g / 64 == 1 && g / 32 % 2 == Bit(!f.linked) && g / 16 % 2 == Bit(f.blockSum)
      && g / 8 % 2 == Bit(f.contentSize > 0) && g / 4 % 2 == Bit(f.contentSum) && g % 2 == Bit(f.dictID > 0)
  {
  }

  // ---------------------------------------------------------------- the reference reader

  // A block that would be refused with an external dictionary: where its content starts, and the
  // room it may ask for.
  datatype Doubt = Doubt(offset: nat, size: nat)

  // A good frame: its content and end, the blocks in doubt, and whether some compressed block of it
  // has no content.
  datatype Frame = Complete(content: Bytes, end: nat, doubts: set<Doubt>, blank: bool) | Bad

  // A frame at `at`; a skippable frame has no content.
  ghost function ReadFrame(k: Codec, s: Bytes, at: nat): Frame {
    if at + MIN_HEADER > |s| then Bad
    else if Word32(s, at) / 16 * 16 == MAGIC_SKIPPABLE then ReadSkippable(s, at + 4)
    else if at + HeaderSize(s[at + 4]) > |s| then Bad
    else
      var h := s[at..at + HeaderSize(s[at + 4])];
      match ParseHeader(k, h)
      case None => Bad
      case Some(f) => ReadBlocks(k, f, s, at + |h|, [])
  }

  ghost function ReadSkippable(s: Bytes, at: nat): Frame {
    if at + 4 > |s| then Bad else Skip(s, at + 4, Word32(s, at))
  }

  ghost function Skip(s: Bytes, at: nat, n: nat): Frame {
    if at + n > |s| then Bad else Complete([], at + n, {}, false)
  }

  // `hist` is the content read so far.
  ghost function ReadBlocks(k: Codec, f: Info, s: Bytes, at: nat, hist: Bytes): Frame
    requires InfoOk(f)
    decreases |s| - at, 0
  {
    if at + 4 > |s| then Bad
    else
      var word := Word32(s, at);
      var n := word % UNCOMPRESSED;
      if n == 0 then ReadSuffix(k, f, s, at + 4, hist)
      else if n > BlockSizeOf(f.blockSizeID) then Bad
      else if word >= UNCOMPRESSED then ReadDirect(k, f, s, at + 4, n, [], hist)
      else ReadPacked(k, f, s, at + 4, n + CrcSize(f), hist)
  }

  // `n` more bytes of a block that is stored as it is; `fed` is what its checksum covers so far.
  ghost function ReadDirect(k: Codec, f: Info, s: Bytes, at: nat, n: nat, fed: Bytes, hist: Bytes): Frame
    requires InfoOk(f)
    decreases |s| - at, 2
  {
    if at + n > |s| then Bad
    else ReadBlockSum(k, f, s, at + n, fed + s[at..at + n], hist + s[at..at + n])
  }

  ghost function ReadBlockSum(k: Codec, f: Info, s: Bytes, at: nat, fed: Bytes, hist: Bytes): Frame
    requires InfoOk(f)
    decreases |s| - at, 1
  {
    if !f.blockSum then ReadBlocks(k, f, s, at, hist)
    else if at + 4 > |s| || Word32(s, at) != k.xxh(fed) then Bad
    else ReadBlocks(k, f, s, at + 4, hist)
  }

  // A compressed block of `size` bytes, its checksum included.
  ghost function ReadPacked(k: Codec, f: Info, s: Bytes, at: nat, size: nat, hist: Bytes): Frame
    requires InfoOk(f)
    decreases |s| - at, 2
  {
    if at + size > |s| || size <= CrcSize(f) then Bad
    else
      var data := s[at..at + size - CrcSize(f)];
      if f.blockSum && Word32(s, at + size - 4) != k.xxh(data) then Bad
      else
        ReadDecoded(k, f, s, at + size, data, hist)
  }

  // What follows, at `at`, a block with the compressed bytes `data`.
  ghost function ReadDecoded(k: Codec, f: Info, s: Bytes, at: nat, data: Bytes, hist: Bytes): Frame
    requires InfoOk(f)
    decreases |s| - at, 1
  {
    var cap := BlockSizeOf(f.blockSizeID);
    match k.decode(data, History(f, hist), cap, Prefix)
    case None => Bad
    case Some(x) =>
      var doubtful := k.decode(data, History(f, hist), cap, External).None?;
      Noted(ReadBlocks(k, f, s, at, hist + x), if doubtful then {Doubt(|hist|, cap)} else {}, x == [])
  }

  function Noted(r: Frame, doubts: set<Doubt>, blank: bool): Frame {
    if r.Bad? then Bad else r.(doubts := r.doubts + doubts, blank := r.blank || blank)
  }

  // Blocks of a linked frame may refer to all that came before.
  function History(f: Info, hist: Bytes): Bytes {
    if f.linked then hist else []
  }

  ghost function ReadSuffix(k: Codec, f: Info, s: Bytes, at: nat, hist: Bytes): Frame {
    if f.contentSize > 0 && |hist| % 0x1_0000_0000_0000_0000 != f.contentSize then Bad
    else if !f.contentSum then Complete(hist, at, {}, false)
    else if at + 4 > |s| || Word32(s, at) != k.xxh(hist) then Bad
    else Complete(hist, at + 4, {}, false)
  }
}
