/**
  * What the reference reader of frames makes of a stream: how far a good frame reaches, and how the
  * two modes of the block decoder compare over whole frames.  A reader that decodes every block with
  * an external dictionary accepts exactly the frames in which no block is in doubt, and reads them
  * alike.
  */
module Lz4FrameReader {
  import opened Basics
  import opened ByteSeq
  import opened Lz4Format
  import opened Lz4FrameFormat

  // ---------------------------------------------------------------- what is left of a frame

  // The blocks in doubt start at `n` in the content or later.
  ghost predicate Later(g: Frame, n: nat) {
    g.Complete? ==> forall y :: y in g.doubts ==> n <= y.offset <= |g.content| && KB64 <= y.size <= 64 * KB64
  }

  // A frame that completes does so inside the stream, with all that was read so far.
  lemma {:induction false} BlocksLeft(k: Codec, f: Info, s: Bytes, at: nat, hist: Bytes)
    requires InfoOk(f) && ReadBlocks(k, f, s, at, hist).Complete?
    ensures var g := ReadBlocks(k, f, s, at, hist); at + 4 <= g.end <= |s| && |hist| <= |g.content| && Later(g, |hist|)
    ensures at + 8 <= ReadBlocks(k, f, s, at, hist).end <==> f.contentSum || Word32(s, at) % UNCOMPRESSED != 0
    decreases |s| - at, 0
  {
    var word := Word32(s, at);
    var n := word % UNCOMPRESSED;
    if n > 0 && word >= UNCOMPRESSED {
      DirectLeft(k, f, s, at + 4, n, [], hist);
    } else if n > 0 {
      PackedLeft(k, f, s, at + 4, n + CrcSize(f), hist);
    }
  }

  lemma {:induction false} DirectLeft(k: Codec, f: Info, s: Bytes, at: nat, n: nat, fed: Bytes, hist: Bytes)
    requires InfoOk(f) && ReadDirect(k, f, s, at, n, fed, hist).Complete?
    ensures var g := ReadDirect(k, f, s, at, n, fed, hist);
      at + n + CrcSize(f) + 4 <= g.end <= |s| && |hist| + n <= |g.content| && Later(g, |hist| + n)
    decreases |s| - at, 2
  {
    SumLeft(k, f, s, at + n, fed + s[at..at + n], hist + s[at..at + n]);
  }

  lemma {:induction false} SumLeft(k: Codec, f: Info, s: Bytes, at: nat, fed: Bytes, hist: Bytes)
    requires InfoOk(f) && ReadBlockSum(k, f, s, at, fed, hist).Complete?
    ensures var g := ReadBlockSum(k, f, s, at, fed, hist);
      at + CrcSize(f) + 4 <= g.end <= |s| && |hist| <= |g.content| && Later(g, |hist|)
    decreases |s| - at, 1
  {
    BlocksLeft(k, f, s, if f.blockSum then at + 4 else at, hist);
  }

  lemma {:induction false} PackedLeft(k: Codec, f: Info, s: Bytes, at: nat, size: nat, hist: Bytes)
    requires InfoOk(f) && ReadPacked(k, f, s, at, size, hist).Complete?
    ensures CrcSize(f) < size
    ensures var g := ReadPacked(k, f, s, at, size, hist);
      at + size + 4 <= g.end <= |s| && |hist| <= |g.content| && Later(g, |hist|) && (|hist| == |g.content| ==> g.blank)
    ensures at + size + 8 <= ReadPacked(k, f, s, at, size, hist).end
            <==> f.contentSum || Word32(s, at + size) % UNCOMPRESSED != 0
    decreases |s| - at, 2
  {
    var data := s[at..at + size - CrcSize(f)];
    var x := k.decode(data, History(f, hist), BlockSizeOf(f.blockSizeID), Prefix).value;
    BlocksLeft(k, f, s, at + size, hist + x);
  }

  lemma FrameLeft(k: Codec, s: Bytes, at: nat)
    requires ReadFrame(k, s, at).Complete?
    ensures at + MIN_HEADER < ReadFrame(k, s, at).end <= |s| && Later(ReadFrame(k, s, at), 0)
    ensures Word32(s, at) / 16 * 16 != MAGIC_SKIPPABLE ==> at + HeaderSize(s[at + 4]) + 4 <= ReadFrame(k, s, at).end
    ensures Word32(s, at) / 16 * 16 == MAGIC_SKIPPABLE ==>
              at + 8 <= |s| && ReadFrame(k, s, at).end == at + 8 + Word32(s, at + 4)
  {
    if Word32(s, at) / 16 * 16 != MAGIC_SKIPPABLE {
      var h := s[at..at + HeaderSize(s[at + 4])];
      BlocksLeft(k, ParseHeader(k, h).value, s, at + |h|, []);
    }
  }

  // ---------------------------------------------------------------- the external reader

  // The same codec when every dictionary is external.
  function Outside(k: Codec): Codec {
    k.(decode := (b: Bytes, d: Bytes, cap: nat, m: Mode) => k.decode(b, d, cap, External))
  }

  // A frame accepted in either mode.
  function Sure(g: Frame): Frame {
    if g.Complete? && g.doubts == {} then g else Bad
  }

  // With external dictionaries exactly the frames without doubts are accepted, and read alike.
  lemma ExternalReader(k: Codec, s: Bytes, at: nat)
    requires CodecOk(k)
    ensures ReadFrame(Outside(k), s, at) == Sure(ReadFrame(k, s, at))
  {
    hide CodecOk, ReadBlocks, ParseHeader;
    if at + MIN_HEADER <= |s| && at + HeaderSize(s[at + 4]) <= |s| {
      var h := s[at..at + HeaderSize(s[at + 4])];
      SameHeader(k, h);
      var p := ParseHeader(k, h);
      if p.Some? {
        ExternalBlocks(k, p.value, s, at + |h|, []);
      }
    }
  }

  lemma SameHeader(k: Codec, h: Bytes)
    requires MIN_HEADER <= |h| == HeaderSize(h[4])
    ensures ParseHeader(Outside(k), h) == ParseHeader(k, h)
  {
  }

  lemma {:induction false} ExternalBlocks(k: Codec, f: Info, s: Bytes, at: nat, hist: Bytes)
    requires CodecOk(k) && InfoOk(f)
    ensures ReadBlocks(Outside(k), f, s, at, hist) == Sure(ReadBlocks(k, f, s, at, hist))
    decreases |s| - at, 0
  {
    hide CodecOk;
    if at + 4 <= |s| {
      var word := Word32(s, at);
      var n := word % UNCOMPRESSED;
      if n == 0 || n > BlockSizeOf(f.blockSizeID) {
      } else if word >= UNCOMPRESSED {
        if at + 4 + n <= |s| {
          var x := s[at + 4..at + 4 + n];
          assert ReadDirect(k, f, s, at + 4, n, [], hist) == ReadBlockSum(k, f, s, at + 4 + n, [] + x, hist + x);
          assert ReadDirect(Outside(k), f, s, at + 4, n, [], hist) == ReadBlockSum(Outside(k), f, s, at + 4 + n, [] + x, hist + x);
          ExternalBlocks(k, f, s, if f.blockSum then at + 8 + n else at + 4 + n, hist + x);
        }
      } else {
        ExternalPacked(k, f, s, at + 4, n + CrcSize(f), hist);
      }
    }
  }

  lemma {:induction false} ExternalPacked(k: Codec, f: Info, s: Bytes, at: nat, size: nat, hist: Bytes)
    requires CodecOk(k) && InfoOk(f)
    ensures ReadPacked(Outside(k), f, s, at, size, hist) == Sure(ReadPacked(k, f, s, at, size, hist))
    decreases |s| - at, 2
  {
    hide ReadBlocks, Tail;
    if at + size <= |s| && CrcSize(f) < size {
      var data := s[at..at + size - CrcSize(f)];
      var d, cap := History(f, hist), BlockSizeOf(f.blockSizeID);
      assert Nested(k, data, d, cap);
      if k.decode(data, d, cap, Prefix).Some? {
        ExternalBlocks(k, f, s, at + size, hist + k.decode(data, d, cap, Prefix).value);
      }
    }
  }
}
