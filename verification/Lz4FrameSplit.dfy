/**
  * A frame that the streaming decoder accepts or refuses depending on the capacity it is given: a
  * stored block of 64 KB and a compressed one whose last match passes only when the history lies
  * right in front of the output.
  */
module Lz4FrameSplit {
  import opened Basics
  import opened ByteSeq
  import opened Lz4Format
  import opened Lz4Coded
  import opened Lz4FrameFormat
  import opened Lz4FrameReader
  import opened Lz4FrameCodec
  import Decode = Lz4FrameDecode
  import Encode = Lz4FrameEncode
  import Stream = Lz4FrameStream

  // 65504 bytes, then 14 literals and a match of 18 bytes at distance 65535, which ends the block.
  function LateBlock(): (r: Bytes)
    ensures |r| == 279
  {
    [0x1F, 7, 1, 0] + seq(256, _ => 255) + [204] + [0xEE, 1, 2, 3, 4, 5, 6, 7, 8, 9, 10, 11, 12, 13, 14, 255, 255, 0]
  }

  // The match is accepted if and only if it does not reach into an external dictionary.
  lemma LateBlockReads(h: Bytes, low: nat)
    requires low <= |h| && 17 <= |h|
    ensures CodedBlock(LateBlock(), h, low, KB64).Some? <==> low + 17 <= |h|
    ensures low + 17 <= |h| ==> |CodedBlock(LateBlock(), h, low, KB64).value| == KB64
  {
    hide CodedSeq, CodedMatch, ReadUpTo, Append;
    var b, c := LateBlock(), |h| + KB64;
    var out := h + b[1..2];
    FirstMatch(h, low);
    var far := Append(out, 1, 65503);
    SecondMatch(far, c, low);
  }

  lemma FirstMatch(h: Bytes, low: nat)
    ensures
      var b, c := LateBlock(), |h| + KB64;
      CodedSeq(b, c, low, 0, h) == CodedSeq(b, c, low, 261, Append(h + b[1..2], 1, 65503))
  {
    hide ReadUpTo, Append;
    var b, c := LateBlock(), |h| + KB64;
    LongMatch();
    assert CodedSeq(b, c, low, 0, h) == CodedMatch(b, c, low, 0x1F, 2, h + b[1..2], true);
    assert ReadOffset(b, 2) == 1;
    assert CodedMatch(b, c, low, 0x1F, 2, h + b[1..2], true) == CodedCopy(b, c, low, 261, 1, 65503, h + b[1..2], false);
  }

  // The length bytes of the first match.
  lemma LongMatch()
    ensures ReadUpTo(LateBlock(), 4, 275) == (255 * 256 + 204, 261)
  {
    hide ReadUpTo;
    var b := LateBlock();
    assert AllOnes(b, 4, 256) && b[260] == 204;
    OnesAddUp(b, 4, 256);
    ReadsWhole(b, 4, 275);
  }

  lemma SecondMatch(out: Bytes, c: nat, low: nat)
    requires |out| + 32 == c && low + KB64 <= c && c >= KB64 + 17
    ensures
      var r := CodedSeq(LateBlock(), c, low, 261, out);
      (r.Some? <==> low + KB64 + 17 <= c) && (r.Some? ==> |r.value| == c)
  {
    hide ReadUpTo, Append;
    var b := LateBlock();
    var lits := out + b[262..276];
    assert b[261] == 0xEE && b[276] == 255 && b[277] == 255 && b[278] == 0;
    assert CodedSeq(b, c, low, 261, out) == CodedMatch(b, c, low, 0xEE, 276, lits, true);
    assert ReadOffset(b, 276) == 65535;
    var free := 65535 <= |lits| - low;
    assert CodedMatch(b, c, low, 0xEE, 276, lits, true) == CodedCopy(b, c, low, 278, 65535, 18, lits, free);
    if free {
      var all := Append(lits, 65535, 18);
      assert CodedSeq(b, c, low, 278, all) == CodedLiterals(b, c, low, 0, 279, 0, all);
    }
  }

  const LINKED_64K := Info(true, false, false, 4, 0, 0)

  // The frame: the stored block, the block above, the end mark.
  function LateFrame(k: Codec, stored: Bytes): Bytes {
    Start(k, stored) + Encode.BlockBytes(k, LINKED_64K, 279, LateBlock()) + LE(0, 4)
  }

  function Start(k: Codec, stored: Bytes): Bytes {
    HeaderBytes(k, LINKED_64K) + Encode.BlockBytes(k, LINKED_64K, |stored| + UNCOMPRESSED, stored)
  }

  lemma StartLeads(k: Codec, stored: Bytes)
    requires CodecOk(k) && |stored| == KB64
    ensures Encode.Leads(k, LINKED_64K, Start(k, stored), stored)
  {
    hide CodecOk, HeaderBytes, Encode.Leads, Encode.BlockBytes, Encode.BlockOf;
    Encode.HeaderLeads(k, LINKED_64K);
    Encode.StoredBlock(k, LINKED_64K, [], stored);
    Encode.BlockLeads(k, LINKED_64K, HeaderBytes(k, LINKED_64K), [], |stored| + UNCOMPRESSED, stored, stored);
    assert [] + stored == stored;
  }

  // It reads well, with its second block in doubt.
  lemma LateFrameReads(k: Codec, stored: Bytes) returns (x: Bytes)
    requires DecodesAsCoded(k) && Checksum(k) && |stored| == KB64
    ensures |x| == KB64
    ensures ReadFrame(k, LateFrame(k, stored), 0)
         == Complete(stored + x, |LateFrame(k, stored)|, {Doubt(KB64, KB64)}, false)
  {
    hide CodecOk, Encode.Leads, Encode.BlockBytes, ReadFrame, Start, LateBlock, CodedBlock, Word32, LE;
    var f, b, s := LINKED_64K, LateBlock(), LateFrame(k, stored);
    CodedCodecOk(k);
    StartLeads(k, stored);
    LateBlockReads(stored, 0);
    LateBlockReads(stored, |stored|);
    x := CodedBlock(b, stored, 0, KB64).value;
    var at := |Start(k, stored)|;
    var block := Encode.BlockBytes(k, f, 279, b);
    LateParts(k, stored, at, block);
    LeadsTo(k, f, Start(k, stored), stored, s);
    assert ReadBlocks(k, f, s, at, stored) == ReadPacked(k, f, s, at + 4, 279, stored);
    assert ReadPacked(k, f, s, at + 4, 279, stored) == ReadDecoded(k, f, s, at + 283, b, stored);
    assert ReadBlocks(k, f, s, at + 283, stored + x) == Complete(stored + x, at + 287, {}, false);
    assert k.decode(b, stored, KB64, Prefix) == Some(x) && k.decode(b, stored, KB64, External).None?;
  }

  lemma LeadsTo(k: Codec, f: Info, out: Bytes, hist: Bytes, s: Bytes)
    requires Encode.Leads(k, f, out, hist) && out <= s
    ensures InfoOk(f) && ReadFrame(k, s, 0) == ReadBlocks(k, f, s, |out|, hist)
  {
  }

  lemma LateParts(k: Codec, stored: Bytes, at: nat, block: Bytes)
    requires Checksum(k) && at == |Start(k, stored)| && block == Encode.BlockBytes(k, LINKED_64K, 279, LateBlock())
    ensures
      var s := LateFrame(k, stored);
      && |s| == at + 287 && Start(k, stored) <= s
      && Word32(s, at) == 279 && s[at + 4..at + 283] == LateBlock() && Word32(s, at + 283) == 0
  {
    hide Start, LateBlock, Word32, LE, Encode.BlockBytes;
    var s := LateFrame(k, stored);
    Encode.BlockSize(k, LINKED_64K, 279, LateBlock());
    assert s[at..at + 283] == block;
    Encode.BlockParts(k, LINKED_64K, s, at, 279, LateBlock());
    assert s[at + 283..at + 287] == LE(0, 4);
    WordOf(s, at + 283, 0);
  }

  // One call refuses the frame exactly when its room ends inside the second block, and gives all
  // of the content when there is room for it.
  method TwoCapacities(xxh: Bytes -> nat, stored: Bytes, cap: nat) returns (out: Bytes, outcome: Decode.Outcome)
    requires (forall b: Bytes :: xxh(b) < 0x1_0000_0000) && |stored| == KB64
    ensures outcome.Error? <==> KB64 < cap < KB128
    ensures cap >= KB128 ==> outcome == Decode.Hint(0) && |out| == KB128
  {
    hide CodecOk, ReadFrame, LateFrame, CodedBlock;
    var k := BlockCodec(xxh);
    CodedCodecOk(k);
    ghost var x := LateFrameReads(k, stored);
    var s := LateFrame(k, stored);
    ghost var goal := ReadFrame(k, s, 0);
    assert goal.doubts == {Doubt(KB64, KB64)};
    var used;
    out, used, outcome := Stream.DecodeOnce(k, s, cap);
    if KB64 < cap < KB128 {
      assert Doubt(KB64, KB64) in goal.doubts;
      assert Doubt(KB64, KB64).offset < cap < Doubt(KB64, KB64).offset + Doubt(KB64, KB64).size;
    }
  }
}
