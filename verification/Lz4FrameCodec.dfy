/**
  * The contract the frame layer assumes of the block codec, met by the block decoder as coded and
  * by the format's own decoder: a block sees nothing of its history but the last 64 KB.  Every
  * block that tiles its content on a history decodes to that content, so any such compressor meets
  * the encoder's part of the contract, and frames of it come back whole.
  */
module Lz4FrameCodec {
  import opened Basics
  import opened ByteSeq
  import opened Lz4Format
  import opened Lz4Coded
  import opened Lz4FrameFormat
  import opened Lz4FrameReader
  import Blocks = Lz4Encode
  import Encode = Lz4FrameEncode
  import Stream = Lz4FrameStream

  // The content a block adds to a history, when it decodes and fits.
  ghost function BlockContent(b: Bytes, h: Bytes, cap: nat): Option<Bytes> {
    var d := Decode(b, 0, h, -1);
    if d.Finished? && |h| <= |d.out| <= |h| + cap then Some(d.out[|h|..]) else None
  }

  lemma SameByte(d: Bytes, h: Bytes, x: Bytes, offset: nat)
    requires Tail(d, h) && 1 <= offset <= MAX_DISTANCE && offset <= |h| + |x|
    ensures offset <= |d| + |x|
    ensures (d + x)[|d + x| - offset] == (h + x)[|h + x| - offset]
  {
    if offset > |x| {
      var m := if |h| < KB64 then |h| else KB64;
      var r := offset - |x|;
      assert d[|d| - r] == d[|d| - m..][m - r];
      assert h[|h| - r] == h[|h| - m..][m - r];
    }
  }

  lemma {:induction false} SameExtend(d: Bytes, h: Bytes, x: Bytes, offset: nat, len: nat) returns (y: Bytes)
    requires Tail(d, h) && 1 <= offset <= MAX_DISTANCE && offset <= |h| + |x|
    ensures offset <= |d| + |x|
    ensures Extend(h + x, offset, len) == h + y && Extend(d + x, offset, len) == d + y && |y| == |x| + len
    decreases len
  {
    hide Tail, Extend;
    SameByte(d, h, x, offset);
    if len == 0 {
      y := x;
      NothingExtended(h + x, offset);
      NothingExtended(d + x, offset);
    } else {
      var b := (h + x)[|h + x| - offset];
      ExtendedBy(h, x, offset, len, b);
      ExtendedBy(d, x, offset, len, b);
      y := SameExtend(d, h, x + [b], offset, len - 1);
    }
  }

  lemma NothingExtended(out: Bytes, offset: nat)
    requires 1 <= offset <= |out|
    ensures Extend(out, offset, 0) == out
  {
  }

  lemma ExtendedBy(h: Bytes, x: Bytes, offset: nat, len: nat, b: Byte)
    requires 1 <= offset <= |h + x| && len > 0 && b == (h + x)[|h + x| - offset]
    ensures Extend(h + x, offset, len) == Extend(h + (x + [b]), offset, len - 1)
  {
    assert h + x + [b] == h + (x + [b]);
  }

  lemma OffsetBound(src: Bytes, i: nat)
    requires i + 2 <= |src|
    ensures ReadOffset(src, i) <= MAX_DISTANCE
  {
  }

  // Decoding on a history and on a dictionary with the same end goes the same way.
  lemma {:induction false} SameDecode(b: Bytes, ip: nat, h: Bytes, d: Bytes, x: Bytes, ms: int, ns: int) returns (y: Bytes)
    requires ip <= |b| && Tail(d, h) && Decode(b, ip, h + x, ms).Finished?
    ensures Decode(b, ip, h + x, ms).out == h + y
    ensures Decode(b, ip, d + x, ns).Finished? && Decode(b, ip, d + x, ns).out == d + y
    decreases |b| - ip
  {
    hide ReadLength, ReadOffset, Extend, Tail;
    var token := b[ip];
    var p := ReadLength(b, token / 16, ip + 1).value;
    var i1, ll := p.1, p.0;
    var i2 := i1 + ll;
    assert Decode(b, ip, h + x, ms) == DecodeLiterals(b, token, i1, ll, h + x, ms);
    assert Decode(b, ip, d + x, ns) == DecodeLiterals(b, token, i1, ll, d + x, ns);
    if i2 == |b| {
      y := x + b[i1..];
      assert h + x + b[i1..] == h + y && d + x + b[i1..] == d + y;
    } else {
      var z := x + b[i1..i2];
      assert h + x + b[i1..i2] == h + z && d + x + b[i1..i2] == d + z;
      y := SameMatch(b, token, i2, h, d, z, ip);
    }
  }

  lemma {:induction false} SameMatch(b: Bytes, token: Byte, i2: nat, h: Bytes, d: Bytes, z: Bytes, from: nat) returns (y: Bytes)
    requires from < i2 <= |b| && Tail(d, h) && DecodeMatch(b, token, i2, h + z).Finished?
    ensures DecodeMatch(b, token, i2, h + z).out == h + y
    ensures DecodeMatch(b, token, i2, d + z).Finished? && DecodeMatch(b, token, i2, d + z).out == d + y
    decreases |b| - i2
  {
    hide ReadLength, ReadOffset, Extend, Tail, Decode;
    var offset := ReadOffset(b, i2);
    OffsetBound(b, i2);
    var q := ReadLength(b, token % 16, i2 + 2).value;
    var mlen := q.0 + MINMATCH;
    var w := SameExtend(d, h, z, offset, mlen);
    assert DecodeMatch(b, token, i2, h + z) == DecodeCopy(b, q.1, offset, mlen, h + z);
    assert DecodeMatch(b, token, i2, d + z) == DecodeCopy(b, q.1, offset, mlen, d + z);
    y := SameDecode(b, q.1, h, d, w, |h + z|, |d + z|);
  }

  // The reference decoder meets the contract of the frame layer.
  lemma ReferenceCodec(b: Bytes, h: Bytes, d: Bytes, cap: nat)
    requires BlockContent(b, h, cap).Some? && Tail(d, h)
    ensures BlockContent(b, d, cap) == BlockContent(b, h, cap)
  {
    hide Decode, Tail;
    assert h + [] == h && d + [] == d;
    var y := SameDecode(b, 0, h, d, [], -1, -1);
    assert (h + y)[|h|..] == y && (d + y)[|d|..] == y;
  }

  // ---------------------------------------------------------------- the decoder as coded

  // The size of the external dictionary: all of the history or, when it lies before the output, none.
  function Low(mode: Mode, h: Bytes): nat {
    if mode.External? then |h| else 0
  }

  lemma SameAppend(d: Bytes, h: Bytes, x: Bytes, offset: nat, len: nat) returns (y: Bytes)
    requires Tail(d, h) && offset <= MAX_DISTANCE && offset <= |h| + |x|
    ensures offset <= |d| + |x|
    ensures Append(h + x, offset, len) == h + y && Append(d + x, offset, len) == d + y && |y| == |x| + len
  {
    hide Tail;
    if offset == 0 {
      y := x + Zeros(len);
      assert h + x + Zeros(len) == h + y && d + x + Zeros(len) == d + y;
    } else {
      y := SameExtend(d, h, x, offset, len);
    }
  }

  lemma {:induction false} SameCoded(b: Bytes, cap: nat, mode: Mode, ip: nat, h: Bytes, d: Bytes, x: Bytes) returns (y: Bytes)
    requires ip < |b| && Tail(d, h) && CodedSeq(b, |h| + cap, Low(mode, h), ip, h + x).Some?
    ensures CodedSeq(b, |h| + cap, Low(mode, h), ip, h + x) == Some(h + y)
    ensures CodedSeq(b, |d| + cap, Low(mode, d), ip, d + x) == Some(d + y)
    decreases |b| - ip, 2
  {
    hide ReadUpTo, Tail, CodedMatch;
    var token := b[ip];
    var ll := token / 16;
    if ll < RUN_MASK && Quick(b, |h| + cap, ip, h + x) {
      var z := x + b[ip + 1..ip + 1 + ll];
      assert h + x + b[ip + 1..ip + 1 + ll] == h + z && d + x + b[ip + 1..ip + 1 + ll] == d + z;
      y := SameCodedMatch(b, cap, mode, token, ip + 1 + ll, h, d, z, true);
    } else {
      var p := if ll < RUN_MASK then (ll, ip + 1) else
        var r := ReadUpTo(b, ip + 1, |b| - RUN_MASK); (r.0 % U32 + RUN_MASK, r.1);
      y := SameCodedLiterals(b, cap, mode, token, p.1, p.0, h, d, x);
    }
  }

  lemma {:induction false} SameCodedLiterals(b: Bytes, cap: nat, mode: Mode, token: Byte, ip: nat, length: nat,
                                             h: Bytes, d: Bytes, x: Bytes) returns (y: Bytes)
    requires ip <= |b| && Tail(d, h) && CodedLiterals(b, |h| + cap, Low(mode, h), token, ip, length, h + x).Some?
    ensures CodedLiterals(b, |h| + cap, Low(mode, h), token, ip, length, h + x) == Some(h + y)
    ensures CodedLiterals(b, |d| + cap, Low(mode, d), token, ip, length, d + x) == Some(d + y)
    decreases |b| - ip, 1
  {
    hide Tail, CodedMatch;
    if |x| + length > cap - MFLIMIT || ip + length > |b| - 8 {
      y := x + b[ip..];
      assert h + x + b[ip..] == h + y && d + x + b[ip..] == d + y;
    } else {
      var z := x + b[ip..ip + length];
      assert h + x + b[ip..ip + length] == h + z && d + x + b[ip..ip + length] == d + z;
      y := SameCodedMatch(b, cap, mode, token, ip + length, h, d, z, false);
    }
  }

  lemma {:induction false} SameCodedMatch(b: Bytes, cap: nat, mode: Mode, token: Byte, ip: nat,
                                          h: Bytes, d: Bytes, z: Bytes, quick: bool) returns (y: Bytes)
    requires ip + 2 < |b| && Tail(d, h) && CodedMatch(b, |h| + cap, Low(mode, h), token, ip, h + z, quick).Some?
    ensures CodedMatch(b, |h| + cap, Low(mode, h), token, ip, h + z, quick) == Some(h + y)
    ensures CodedMatch(b, |d| + cap, Low(mode, d), token, ip, d + z, quick) == Some(d + y)
    decreases |b| - ip, 0
  {
    hide ReadUpTo, ReadOffset, Tail, CodedSeq, Append;
    var offset := ReadOffset(b, ip);
    OffsetBound(b, ip);
    var p := if token % 16 < ML_MASK then (token % 16 + MINMATCH, ip + 2) else
      var r := ReadUpTo(b, ip + 2, |b| - LASTLITERALS + 1); (r.0 % U32 + ML_MASK + MINMATCH, r.1);
    var w := SameAppend(d, h, z, offset, p.0);
    y := SameCoded(b, cap, mode, p.1, h, d, w);
  }

  // What the decoder makes of a block depends on the last 64 KB of the history only.
  lemma CodedCodec(b: Bytes, h: Bytes, d: Bytes, mode: Mode, cap: nat)
    requires CodedBlock(b, h, Low(mode, h), cap).Some? && Tail(d, h)
    ensures CodedBlock(b, d, Low(mode, d), cap) == CodedBlock(b, h, Low(mode, h), cap)
  {
    hide CodedSeq, Tail;
    if cap > 0 {
      assert h + [] == h && d + [] == d;
      var y := SameCoded(b, cap, mode, 0, h, d, []);
      assert (h + y)[|h|..] == y && (d + y)[|d|..] == y;
    }
  }

  // ---------------------------------------------------------------- the contract

  ghost predicate Checksum(k: Codec) {
    forall b: Bytes :: k.xxh(b) < 0x1_0000_0000
  }

  // The decoder as coded, in either mode.
  ghost predicate DecodesAsCoded(k: Codec) {
    forall b: Bytes, h: Bytes, cap: nat, m: Mode :: k.decode(b, h, cap, m) == CodedBlock(b, h, Low(m, h), cap)
  }

  ghost predicate DecodesAsFormat(k: Codec) {
    forall b: Bytes, h: Bytes, cap: nat, m: Mode :: k.decode(b, h, cap, m) == BlockContent(b, h, cap)
  }

  lemma CodedCodecOk(k: Codec)
    requires DecodesAsCoded(k) && Checksum(k)
    ensures CodecOk(k)
  {
    hide CodedBlock, Tail;
    forall b: Bytes, h: Bytes, d: Bytes, cap: nat, m: Mode | k.decode(b, h, cap, m).Some? && Tail(d, h)
      ensures k.decode(b, d, cap, m) == k.decode(b, h, cap, m)
    {
      CodedCodec(b, h, d, m, cap);
    }
    forall b: Bytes, d: Bytes, cap: nat
      ensures Nested(k, b, d, cap)
    {
      if k.decode(b, d, cap, External).Some? {
        BlockPrefixAccepts(b, d, Low(External, d), cap);
      } else if k.decode(b, d, cap, Prefix) == Some([]) {
        EmptyAlike(b, d, Low(External, d), cap);
      }
    }
  }

  lemma ReferenceCodecOk(k: Codec)
    requires DecodesAsFormat(k) && Checksum(k)
    ensures CodecOk(k)
  {
    hide Decode, Tail;
    forall b: Bytes, h: Bytes, d: Bytes, cap: nat, m: Mode | k.decode(b, h, cap, m).Some? && Tail(d, h)
      ensures k.decode(b, d, cap, m) == k.decode(b, h, cap, m)
    {
      ReferenceCodec(b, h, d, cap);
    }
  }

  // ---------------------------------------------------------------- frames of the format

  // Every compressed block on the way through the frame is one of the format and keeps its
  // end-of-block rules.
  ghost predicate LegalBlocks(k: Codec, f: Info, s: Bytes, at: nat, hist: Bytes)
    requires InfoOk(f)
    decreases |s| - at
  {
    at + 4 <= |s| ==>
      var n := Word32(s, at) % UNCOMPRESSED;
      var next := at + 4 + n + CrcSize(f);
      0 < n && next <= |s| ==>
        var data := s[at + 4..at + 4 + n];
        if Word32(s, at) >= UNCOMPRESSED then LegalBlocks(k, f, s, next, hist + data)
        else
          && Legal(Decode(data, 0, History(f, hist), -1))
          && match k.decode(data, History(f, hist), BlockSizeOf(f.blockSizeID), Prefix)
             case None => true
             case Some(x) => LegalBlocks(k, f, s, next, hist + x)
  }

  ghost predicate LegalFrame(k: Codec, s: Bytes, at: nat) {
    at + MIN_HEADER <= |s| && Word32(s, at) / 16 * 16 != MAGIC_SKIPPABLE && at + HeaderSize(s[at + 4]) <= |s| ==>
      var h := s[at..at + HeaderSize(s[at + 4])];
      match ParseHeader(k, h)
      case None => true
      case Some(f) => LegalBlocks(k, f, s, at + |h|, [])
  }

  // A block that keeps the rules is read alike in both modes.
  lemma LegalAlike(k: Codec, data: Bytes, h: Bytes, cap: nat)
    requires DecodesAsCoded(k) && Legal(Decode(data, 0, h, -1)) && cap > 0
    ensures k.decode(data, h, cap, Prefix) == k.decode(data, h, cap, External)
  {
    hide CodedBlock, Decode, Legal;
    LegalFacts(Decode(data, 0, h, -1));
    if k.decode(data, h, cap, Prefix).Some? {
      var x := CodedBlock(data, h, 0, cap).value;
      BlockAgreement(data, h, 0, cap);
      BlockAccepted(data, h, Low(External, h), cap);
      var y := CodedBlock(data, h, Low(External, h), cap).value;
      assert x == (h + x)[|h|..] && y == (h + y)[|h|..];
    } else if k.decode(data, h, cap, External).Some? {
      BlockPrefixAccepts(data, h, Low(External, h), cap);
    }
  }

  lemma {:induction false} LegalSure(k: Codec, f: Info, s: Bytes, at: nat, hist: Bytes)
    requires InfoOk(f) && DecodesAsCoded(k) && LegalBlocks(k, f, s, at, hist)
    ensures Sure(ReadBlocks(k, f, s, at, hist)) == ReadBlocks(k, f, s, at, hist)
    decreases |s| - at
  {
    hide Decode, Legal, DecodesAsCoded, BlockSizeOf;
    if at + 4 <= |s| {
      var word := Word32(s, at);
      var n := word % UNCOMPRESSED;
      var next := at + 4 + n + CrcSize(f);
      if n > 0 && at + 4 + n <= |s| {
        var data := s[at + 4..at + 4 + n];
        assert ReadDirect(k, f, s, at + 4, n, [], hist) == ReadBlockSum(k, f, s, at + 4 + n, [] + data, hist + data);
        if next > |s| {
        } else if word >= UNCOMPRESSED {
          LegalSure(k, f, s, next, hist + data);
        } else {
          SomeRoom(f);
          LegalAlike(k, data, History(f, hist), BlockSizeOf(f.blockSizeID));
          LegalPacked(k, f, s, at, hist, data);
          var x := k.decode(data, History(f, hist), BlockSizeOf(f.blockSizeID), Prefix);
          if x.Some? {
            LegalSure(k, f, s, next, hist + x.value);
          }
        }
      }
    }
  }

  lemma SomeRoom(f: Info)
    requires InfoOk(f)
    ensures BlockSizeOf(f.blockSizeID) > 0
  {
  }

  // A compressed block without doubt.
  lemma LegalPacked(k: Codec, f: Info, s: Bytes, at: nat, hist: Bytes, data: Bytes)
    requires InfoOk(f) && at + 4 <= |s| && 0 < Word32(s, at) < UNCOMPRESSED
    requires at + 4 + Word32(s, at) + CrcSize(f) <= |s| && data == s[at + 4..at + 4 + Word32(s, at)]
    requires var d, cap := History(f, hist), BlockSizeOf(f.blockSizeID);
      k.decode(data, d, cap, Prefix) == k.decode(data, d, cap, External)
    ensures
      var x := k.decode(data, History(f, hist), BlockSizeOf(f.blockSizeID), Prefix);
      || ReadBlocks(k, f, s, at, hist).Bad?
      || (x.Some? && ReadBlocks(k, f, s, at, hist)
                     == Noted(ReadBlocks(k, f, s, at + 4 + Word32(s, at) + CrcSize(f), hist + x.value), {}, x.value == []))
  {
    hide Word32, BlockSizeOf;
    var n := Word32(s, at);
    if n <= BlockSizeOf(f.blockSizeID) {
      assert ReadBlocks(k, f, s, at, hist) == ReadPacked(k, f, s, at + 4, n + CrcSize(f), hist);
      assert ReadPacked(k, f, s, at + 4, n + CrcSize(f), hist).Bad?
        || ReadPacked(k, f, s, at + 4, n + CrcSize(f), hist) == ReadDecoded(k, f, s, at + 4 + n + CrcSize(f), data, hist);
    }
  }

  // On frames whose blocks keep the end rules the external reader and the other one agree, so
  // every way of feeding them has the same result.
  lemma LegalFrames(k: Codec, s: Bytes, at: nat)
    requires DecodesAsCoded(k) && Checksum(k) && LegalFrame(k, s, at)
    ensures ReadFrame(Outside(k), s, at) == ReadFrame(k, s, at)
  {
    hide DecodesAsCoded, CodecOk, ReadBlocks, LegalBlocks, ParseHeader;
    CodedCodecOk(k);
    ExternalReader(k, s, at);
    if at + MIN_HEADER <= |s| && Word32(s, at) / 16 * 16 != MAGIC_SKIPPABLE && at + HeaderSize(s[at + 4]) <= |s| {
      var h := s[at..at + HeaderSize(s[at + 4])];
      if ParseHeader(k, h).Some? {
        LegalSure(k, ParseHeader(k, h).value, s, at + |h|, []);
      }
    }
  }

  // ---------------------------------------------------------------- compressors

  // `b` encodes a tiling of `x` on the history `h` that keeps the end rules.
  ghost predicate TiledOn(b: Bytes, h: Bytes, x: Bytes, ss: seq<Sequence>, upto: nat) {
    && Tiles(h + x, ss, upto, |h|) && (forall s <- ss :: Encodable(s)) && EndRules(|h + x|, ss, upto)
    && |x| < U32 && b == EncodeAll(ss) + EncodeLast((h + x)[upto..])
  }

  // A tiling without history is one on any history.
  lemma {:induction false} Shifted(h: Bytes, x: Bytes, ss: seq<Sequence>, upto: nat)
    requires Tiles(x, ss, upto)
    ensures Tiles(h + x, ss, |h| + upto, |h|) && x[upto..] == (h + x)[|h| + upto..]
    decreases |ss|
  {
    if ss != [] {
      var s := ss[|ss| - 1];
      var at := upto - s.mlen;
      Shifted(h, x, ss[..|ss| - 1], at - |s.literals|);
      assert (h + x)[|h| + (at - |s.literals|)..|h| + at] == x[at - |s.literals|..at];
      forall i | |h| + at <= i < |h| + upto
        ensures (h + x)[i] == (h + x)[i - s.offset]
      {
        assert x[i - |h|] == x[i - |h| - s.offset];
      }
    }
  }

  // A block of the block compressors, which start without history, is tiled on any, and decodes to
  // its input on any.
  lemma CompressedBlock(x: Bytes, block: Bytes, ss: seq<Sequence>, upto: nat, h: Bytes, low: nat, cap: nat)
    requires Blocks.BlockOf(x, block, ss, upto) && |x| < U32 && |x| <= cap
    ensures TiledOn(block, h, x, ss, |h| + upto)
    ensures CodedBlock(block, h, low, cap) == Some(x) == BlockContent(block, h, cap)
  {
    hide Tiles, EncodeAll, EncodeLast, Encodable, CodedBlock, BlockContent;
    Shifted(h, x, ss, upto);
    TiledDecodes(block, h, x, ss, |h| + upto, low, cap);
  }

  // A tiled block decodes to its content, as the format says and as the decoder is coded.
  lemma TiledDecodes(b: Bytes, h: Bytes, x: Bytes, ss: seq<Sequence>, upto: nat, low: nat, cap: nat)
    requires TiledOn(b, h, x, ss, upto) && |x| <= cap
    ensures BlockContent(b, h, cap) == Some(x)
    ensures CodedBlock(b, h, low, cap) == Some(x)
  {
    hide Decode, Tiles, EncodeAll, EncodeLast, Encodable, EndRules, CodedBlock, Legal;
    BlockDecodes(h + x, ss, upto, h);
    assert (h + x)[|h|..] == x;
    if cap == 0 {
      EmptyTiling(h, x, ss, upto);
    }
    BlockAccepted(b, h, low, cap);
    var c := CodedBlock(b, h, low, cap).value;
    assert (h + c)[|h|..] == c;
  }

  lemma EmptyTiling(h: Bytes, x: Bytes, ss: seq<Sequence>, upto: nat)
    requires Tiles(h + x, ss, upto, |h|) && (forall s <- ss :: Encodable(s)) && x == []
    ensures upto <= |h + x| && EncodeAll(ss) + EncodeLast((h + x)[upto..]) == [0]
  {
    TilesBound(h + x, ss, upto, |h|);
    assert (h + x)[upto..] == [];
  }

  // What is asked of a compressor: a block that fits and is tiled on the end of the history.
  ghost predicate TilingPack(pack: Encode.Pack) {
    forall n: nat, h: Bytes, x: Bytes, cap: nat ::
      pack(n, h, x, cap).Some? ==> 0 < |pack(n, h, x, cap).value| <= cap && IsTiled(pack(n, h, x, cap).value, h, x)
  }

  ghost predicate IsTiled(b: Bytes, h: Bytes, x: Bytes) {
    exists ss, upto :: TiledOn(b, h, x, ss, upto)
  }

  lemma TilingPackOk(k: Codec, pack: Encode.Pack)
    requires DecodesAsCoded(k) || DecodesAsFormat(k)
    requires TilingPack(pack)
    ensures Encode.PackOk(k, pack)
  {
    hide TiledOn, CodedBlock, BlockContent;
    forall n: nat, h: Bytes, x: Bytes, cap: nat | pack(n, h, x, cap).Some?
      ensures Encode.Packed(k, pack(n, h, x, cap).value, h, x, cap)
    {
      var b := pack(n, h, x, cap).value;
      assert IsTiled(b, h, x);
      var ss, upto :| TiledOn(b, h, x, ss, upto);
      forall m: nat | |x| <= m
        ensures Encode.Unpacks(k, b, h, m, x)
      {
        TiledDecodes(b, h, x, ss, upto, Low(Prefix, h), m);
        TiledDecodes(b, h, x, ss, upto, Low(External, h), m);
      }
    }
  }

  // ---------------------------------------------------------------- frames of real blocks

  function BlockCodec(xxh: Bytes -> nat): Codec {
    Codec((b: Bytes, h: Bytes, cap: nat, m: Mode) => CodedBlock(b, h, Low(m, h), cap), xxh)
  }

  // With the block decoder as coded, in whichever mode each block is decoded, and any compressor
  // that tiles its input, content written as a frame in any pieces and read in any pieces comes
  // back.
  method RoundTrip(xxh: Bytes -> nat, pack: Encode.Pack, prefs: Info, autoFlush: bool,
                   ops: seq<Stream.Op>, take: nat -> nat, room: nat -> nat)
    returns (out: Bytes, ok: bool)
    requires (forall b: Bytes :: xxh(b) < 0x1_0000_0000) && TilingPack(pack) && InfoOk(prefs)
    requires forall n: nat :: take(n) > 0 && room(n) > 0
    ensures ok <==> prefs.contentSize == 0 || |Stream.Content(ops)| == prefs.contentSize
    ensures ok ==> out == Stream.Content(ops)
  {
    hide CodedBlock, TilingPack, CodecOk, Encode.PackOk;
    var k := BlockCodec(xxh);
    CodedCodecOk(k);
    TilingPackOk(k, pack);
    out, ok := Stream.RoundTrip(k, pack, prefs, autoFlush, ops, take, room);
  }
}
