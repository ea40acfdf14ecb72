/**
  * What the safe block decoder makes of any input, byte for byte: the length bytes are added up in
  * 32 bits, an offset of 0 stands for zero bytes, and a block ends where the decoder's tests on the
  * ends of both buffers say so.  It accepts every block of the format that keeps the end-of-block
  * rules and fits, and where it accepts a block it agrees with the format if and only if the block
  * holds no zero offset and no length of 2^32 or more.
  *
  * The output starts with the history a block may refer to; its first `low` bytes are an external
  * dictionary, the others lie in front of the output buffer.  `cap` limits the whole of it.
  */
module Lz4Coded {
  import opened Basics
  import opened ByteSeq
  import opened Lz4Format

  // ---------------------------------------------------------------- the decoder's reading

  // The sum of the length bytes from i, and the index after them: reading stops before `limit`.
  function ReadUpTo(src: Bytes, i: nat, limit: int): (r: (nat, nat))
    requires i < |src| && limit <= |src|
    ensures i < r.1 <= |src|
    decreases |src| - i
  {
    if src[i] < 255 || i + 1 >= limit then (src[i], i + 1)
    else
      var r := ReadUpTo(src, i + 1, limit);
      (255 + r.0, r.1)
  }

  function Zeros(n: nat): (r: Bytes)
    ensures |r| == n
  {
    seq(n, _ => 0)
  }

  // A match: an offset of 0 repeats the zeros the decoder writes first.
  function Append(out: Bytes, offset: nat, len: nat): (r: Bytes)
    requires offset <= |out|
    ensures |r| == |out| + len && out <= r
  {
    if offset == 0 then out + Zeros(len) else Extend(out, offset, len)
  }

  // A sequence from its token.  With at most 14 literals, 17 bytes of input and 32 of output left,
  // the literals need no further test.
  function CodedSeq(src: Bytes, cap: nat, low: nat, ip: nat, out: Bytes): (r: Option<Bytes>)
    requires ip < |src|
    ensures r.Some? ==> out <= r.value && |r.value| <= cap
    decreases |src| - ip, 3
  {
    var token := src[ip];
    var ll := token / 16;
    if ll < RUN_MASK then
      if Quick(src, cap, ip, out) then
        CodedMatch(src, cap, low, token, ip + 1 + ll, out + src[ip + 1..ip + 1 + ll], true)
      else
        CodedLiterals(src, cap, low, token, ip + 1, ll, out)
    else if ip + 1 >= |src| - RUN_MASK then None
    else
      var r := ReadUpTo(src, ip + 1, |src| - RUN_MASK);
      CodedLiterals(src, cap, low, token, r.1, r.0 % U32 + RUN_MASK, out)
  }

  predicate Quick(src: Bytes, cap: nat, ip: nat, out: Bytes) {
    ip + 18 <= |src| && |out| + 32 <= cap
  }

  // Literals near the end of either buffer must be the last and use up the input.
  function CodedLiterals(src: Bytes, cap: nat, low: nat, token: Byte, ip: nat, length: nat, out: Bytes): (r: Option<Bytes>)
    requires ip <= |src|
    ensures r.Some? ==> out <= r.value && |r.value| <= cap
    decreases |src| - ip, 2
  {
    if |out| + length > cap - MFLIMIT || ip + length > |src| - (2 + 1 + LASTLITERALS) then
      if ip + length == |src| && |out| + length <= cap then Some(out + src[ip..]) else None
    else
      CodedMatch(src, cap, low, token, ip + length, out + src[ip..ip + length], false)
  }

  function CodedMatch(src: Bytes, cap: nat, low: nat, token: Byte, ip: nat, out: Bytes, quick: bool): (r: Option<Bytes>)
    requires ip + 2 < |src|
    ensures r.Some? ==> out <= r.value && |r.value| <= cap
    decreases |src| - ip, 1
  {
    var offset := ReadOffset(src, ip);
    if token % 16 < ML_MASK then
      CodedCopy(src, cap, low, ip + 2, offset, token % 16 + MINMATCH, out, quick && 8 <= offset <= |out| - low)
    else
      var r := ReadUpTo(src, ip + 2, |src| - LASTLITERALS + 1);
      if r.1 >= |src| - LASTLITERALS + 1 then None
      else CodedCopy(src, cap, low, r.1, offset, r.0 % U32 + ML_MASK + MINMATCH, out, false)
  }

  // A match must end 5 bytes before the end of the output, unless it was copied with its literals.
  function CodedCopy(src: Bytes, cap: nat, low: nat, ip: nat, offset: nat, mlen: nat, out: Bytes, free: bool): (r: Option<Bytes>)
    requires ip < |src|
    ensures r.Some? ==> out <= r.value && |r.value| <= cap
    decreases |src| - ip, 4
  {
    if offset > |out| || (!free && |out| + mlen > cap - LASTLITERALS) then None
    else CodedSeq(src, cap, low, ip, Append(out, offset, mlen))
  }

  // What a block adds to the history `h`.
  function CodedBlock(src: Bytes, h: Bytes, low: nat, cap: nat): (r: Option<Bytes>)
    ensures r.Some? ==> |r.value| <= cap
  {
    if cap == 0 then (if src == [0] then Some([]) else None)
    else if src == [] then None
    else
      match CodedSeq(src, |h| + cap, low, 0, h)
      case None => None
      case Some(x) => Some(x[|h|..])
  }

  // ---------------------------------------------------------------- lengths

  // A length read before the limit is read whole; at the limit it may go on after a 255.
  lemma {:induction false} ReadsLength(src: Bytes, i: nat, limit: int)
    requires i < |src| && limit <= |src|
    ensures var r := ReadUpTo(src, i, limit);
      && (r.1 < limit || src[r.1 - 1] < 255 ==> ReadLen(src, i) == Some(r))
      && (src[r.1 - 1] == 255 ==> r.0 >= 255)
      && AllOnes(src, i, r.1 - 1 - i) && r.0 == 255 * (r.1 - 1 - i) + src[r.1 - 1]
    decreases |src| - i
  {
    if src[i] == 255 && i + 1 < limit {
      ReadsLength(src, i + 1, limit);
    }
  }

  // A length that ends by the limit is what the decoder reads.
  lemma {:induction false} ReadsWhole(src: Bytes, i: nat, limit: int)
    requires i < |src| && limit <= |src|
    requires ReadLen(src, i).Some? && ReadLen(src, i).value.1 <= limit
    ensures ReadUpTo(src, i, limit) == ReadLen(src, i).value
    decreases |src| - i
  {
    if src[i] == 255 {
      ReadLenEnds(src, i + 1);
      ReadsWhole(src, i + 1, limit);
    }
  }

  lemma ReadLenEnds(src: Bytes, i: nat)
    requires ReadLen(src, i).Some?
    ensures i < ReadLen(src, i).value.1 <= |src|
  {
  }

  // Only a run that exceeds 32 bits has a sum that is truncated.
  lemma SumFits(src: Bytes, i: nat, limit: int)
    requires i < |src| && limit <= |src|
    ensures LongRun(src, i) || ReadUpTo(src, i, limit).0 < U32
  {
    hide ReadUpTo, ReadLen, LongRun;
    ReadsLength(src, i, limit);
    var r := ReadUpTo(src, i, limit);
    if r.0 >= U32 {
      LargeSum(src, i, r.1 - 1 - i);
    }
  }

  lemma LargeSum(src: Bytes, i: nat, n: nat)
    requires AllOnes(src, i, n) && i + n < |src| && 255 * n + src[i + n] >= U32
    ensures LongRun(src, i)
  {
    assert n >= LONG_RUN;
    assert AllOnes(src, i, LONG_RUN);
    assert src[i + LONG_RUN] > 0;
  }

  // ---------------------------------------------------------------- agreement with the format

  // No sequence of the block has an offset of 0 or a length of 2^32 or more: the input alone tells.
  predicate Plain(src: Bytes, ip: nat)
    decreases |src| - ip
  {
    ip < |src| ==>
      && (src[ip] / 16 == 15 ==> !LongRun(src, ip + 1))
      && match ReadLength(src, src[ip] / 16, ip + 1)
         case None => true
         case Some(p) =>
           p.0 + p.1 + 2 <= |src| ==>
             && ReadOffset(src, p.0 + p.1) > 0
             && (src[ip] % 16 == 15 ==> !LongRun(src, p.0 + p.1 + 2))
             && match ReadLength(src, src[ip] % 16, p.0 + p.1 + 2)
                case None => true
                case Some(q) => Plain(src, q.1)
  }

  lemma SeqParsed(src: Bytes, cap: nat, low: nat, ip: nat, out: Bytes) returns (quick: bool)
    requires ip < |src| && CodedSeq(src, cap, low, ip, out).Some?
    requires src[ip] / 16 == 15 ==> !LongRun(src, ip + 1)
    ensures
      var p := ReadLength(src, src[ip] / 16, ip + 1);
      && p.Some? && p.value.1 + p.value.0 <= |src|
      && var i := p.value.1 + p.value.0;
      && (i == |src| ==> CodedSeq(src, cap, low, ip, out) == Some(out + src[p.value.1..]))
      && (i < |src| ==> (i + 2 < |src| && CodedSeq(src, cap, low, ip, out)
                                          == CodedMatch(src, cap, low, src[ip], i, out + src[p.value.1..i], quick)))
  {
    hide CodedMatch, LongRun, ReadUpTo, ReadLen;
    quick := false;
    if src[ip] / 16 < RUN_MASK {
      quick := Quick(src, cap, ip, out);
    } else {
      var limit := |src| - RUN_MASK;
      SumFits(src, ip + 1, limit);
      ReadsLength(src, ip + 1, limit);
    }
  }

  lemma MatchParsed(src: Bytes, cap: nat, low: nat, token: Byte, ip: nat, out: Bytes, quick: bool)
    requires ip + 2 < |src| && CodedMatch(src, cap, low, token, ip, out, quick).Some?
    requires token % 16 == 15 ==> !LongRun(src, ip + 2)
    ensures ReadOffset(src, ip) <= |out|
    ensures
      var q := ReadLength(src, token % 16, ip + 2);
      && q.Some? && q.value.1 < |src|
      && CodedMatch(src, cap, low, token, ip, out, quick)
         == CodedSeq(src, cap, low, q.value.1, Append(out, ReadOffset(src, ip), q.value.0 + MINMATCH))
  {
    hide CodedSeq, LongRun, ReadUpTo, ReadLen, Append, ReadOffset;
    if token % 16 == ML_MASK {
      var limit := |src| - LASTLITERALS + 1;
      SumFits(src, ip + 2, limit);
      ReadsLength(src, ip + 2, limit);
    }
  }

  // A zero offset is one, however the match length reads.
  lemma OffsetParsed(src: Bytes, cap: nat, low: nat, token: Byte, ip: nat, out: Bytes, quick: bool)
    requires ip + 2 < |src| && CodedMatch(src, cap, low, token, ip, out, quick).Some?
    ensures ReadOffset(src, ip) <= |out|
  {
  }

  // Where the decoder accepts, it agrees with the format exactly on plain blocks.
  lemma {:induction false} Agreement(src: Bytes, cap: nat, low: nat, ip: nat, out: Bytes, ms: int)
    requires ip < |src| && CodedSeq(src, cap, low, ip, out).Some?
    ensures var d := Decode(src, ip, out, ms);
      if Plain(src, ip) then d.Finished? && d.out == CodedSeq(src, cap, low, ip, out).value
      else d.ZeroOffset? || d.Overlong?
    decreases |src| - ip
  {
    hide LongRun, ReadLength, ReadOffset, Extend, CodedSeq, CodedMatch;
    if src[ip] / 16 == 15 && LongRun(src, ip + 1) {
      return;
    }
    var quick := SeqParsed(src, cap, low, ip, out);
    var p := ReadLength(src, src[ip] / 16, ip + 1).value;
    var i := p.1 + p.0;
    if i < |src| {
      var lits := out + src[p.1..i];
      OffsetParsed(src, cap, low, src[ip], i, lits, quick);
      var offset := ReadOffset(src, i);
      if offset == 0 || (src[ip] % 16 == 15 && LongRun(src, i + 2)) {
        assert DecodeLiterals(src, src[ip], p.1, p.0, out, ms) == DecodeMatch(src, src[ip], i, lits);
        return;
      }
      MatchParsed(src, cap, low, src[ip], i, lits, quick);
      var q := ReadLength(src, src[ip] % 16, i + 2).value;
      var next := Extend(lits, offset, q.0 + MINMATCH);
      assert DecodeMatch(src, src[ip], i, lits) == DecodeCopy(src, q.1, offset, q.0 + MINMATCH, lits);
      Agreement(src, cap, low, q.1, next, |lits|);
    }
  }

  // ---------------------------------------------------------------- blocks of the format

  // A block of the format that keeps the end rules and fits is accepted.
  lemma {:induction false} Accepted(src: Bytes, cap: nat, low: nat, ip: nat, out: Bytes, ms: int)
    requires ip <= |src| && ms < |out| && Legal(Decode(src, ip, out, ms))
    requires |Decode(src, ip, out, ms).out| <= cap
    ensures ip < |src| && CodedSeq(src, cap, low, ip, out) == Some(Decode(src, ip, out, ms).out)
    decreases |src| - ip
  {
    hide LongRun, ReadLength, ReadOffset, Extend, CodedSeq, CodedMatch, Legal;
    var d := Decode(src, ip, out, ms);
    LegalFacts(d);
    var token := src[ip];
    var p := ReadLength(src, token / 16, ip + 1).value;
    var i := p.1 + p.0;
    if i == |src| {
      SeqAccepted(src, cap, low, ip, out, p.0, p.1, false);
      return;
    }
    var lits := out + src[p.1..i];
    assert d == DecodeMatch(src, token, i, lits);
    var offset := ReadOffset(src, i);
    var q := ReadLength(src, token % 16, i + 2).value;
    var next := Extend(lits, offset, q.0 + MINMATCH);
    assert d == DecodeCopy(src, q.1, offset, q.0 + MINMATCH, lits);
    assert d == Decode(src, q.1, next, |lits|);
    DecodeBounds(src, q.1, next, |lits|);
    Accepted(src, cap, low, q.1, next, |lits|);
    SeqAccepted(src, cap, low, ip, out, p.0, p.1, Quick(src, cap, ip, out));
    MatchAccepted(src, cap, low, token, i, lits, q.0, q.1, token / 16 < RUN_MASK && Quick(src, cap, ip, out));
  }

  lemma LegalFacts(d: Decoded)
    requires Legal(d)
    ensures d.Finished? && (d.matchStart >= 0 ==> d.tail >= LASTLITERALS && d.matchStart + MFLIMIT <= |d.out|)
  {
  }

  lemma LengthAccepted(src: Bytes, nibble: nat, i: nat, limit: int)
    requires i <= |src| && limit <= |src| && nibble == 15 && !LongRun(src, i)
    requires ReadLength(src, nibble, i).Some? && ReadLength(src, nibble, i).value.1 <= limit
    ensures i < limit
    ensures
      var r, p := ReadUpTo(src, i, limit), ReadLength(src, nibble, i).value;
      r.1 == p.1 && r.0 % U32 + 15 == p.0
  {
    hide LongRun, ReadUpTo, ReadLen;
    ReadLenEnds(src, i);
    ReadsWhole(src, i, limit);
    LongRunIsLarge(src, i);
  }

  // The literals of such a sequence, last (quick is false) or not.
  lemma SeqAccepted(src: Bytes, cap: nat, low: nat, ip: nat, out: Bytes, length: nat, i1: nat, quick: bool)
    requires ip < |src| && (src[ip] / 16 == 15 ==> !LongRun(src, ip + 1))
    requires ReadLength(src, src[ip] / 16, ip + 1) == Some((length, i1)) && i1 + length <= |src|
    requires i1 + length == |src| ==> |out| + length <= cap
    requires i1 + length < |src| ==> i1 + length + 8 <= |src| && |out| + length + MFLIMIT <= cap
    requires i1 + length < |src| ==> quick == Quick(src, cap, ip, out)
    ensures i1 + length == |src| ==> CodedSeq(src, cap, low, ip, out) == Some(out + src[i1..])
    ensures i1 + length < |src| ==>
              CodedSeq(src, cap, low, ip, out)
              == CodedMatch(src, cap, low, src[ip], i1 + length, out + src[i1..i1 + length], src[ip] / 16 < RUN_MASK && quick)
  {
    hide CodedMatch, LongRun, ReadUpTo, ReadLen;
    if src[ip] / 16 == 15 {
      LengthAtLeast(src, ip + 1);
      LengthAccepted(src, 15, ip + 1, |src| - RUN_MASK);
    }
  }

  lemma LengthAtLeast(src: Bytes, i: nat)
    requires i <= |src| && ReadLength(src, 15, i).Some?
    ensures ReadLength(src, 15, i).value.0 >= 15
  {
  }

  lemma MatchAccepted(src: Bytes, cap: nat, low: nat, token: Byte, ip: nat, out: Bytes, length: nat, i1: nat, quick: bool)
    requires ip + 2 < |src| && 1 <= ReadOffset(src, ip) <= |out| && (token % 16 == 15 ==> !LongRun(src, ip + 2))
    requires ReadLength(src, token % 16, ip + 2) == Some((length, i1)) && i1 + LASTLITERALS < |src|
    requires |out| + length + MINMATCH + LASTLITERALS <= cap
    ensures CodedMatch(src, cap, low, token, ip, out, quick)
         == CodedSeq(src, cap, low, i1, Extend(out, ReadOffset(src, ip), length + MINMATCH))
  {
    hide CodedSeq, LongRun, ReadUpTo, ReadLen, Extend, ReadOffset;
    if token % 16 == ML_MASK {
      LengthAccepted(src, 15, ip + 2, |src| - LASTLITERALS + 1);
    }
  }

  // ---------------------------------------------------------------- whole blocks

  // An accepted block is decoded as the format says if and only if it is plain.
  lemma BlockAgreement(src: Bytes, h: Bytes, low: nat, cap: nat)
    requires CodedBlock(src, h, low, cap).Some?
    ensures var d := Decode(src, 0, h, -1);
      if Plain(src, 0) then d.Finished? && d.out == h + CodedBlock(src, h, low, cap).value
      else d.ZeroOffset? || d.Overlong?
  {
    if cap > 0 {
      Agreement(src, |h| + cap, low, 0, h, -1);
    } else {
      EmptyBlock(h);
    }
  }

  lemma BlockAccepted(src: Bytes, h: Bytes, low: nat, cap: nat)
    requires Legal(Decode(src, 0, h, -1)) && |Decode(src, 0, h, -1).out| <= |h| + cap
    requires cap > 0 || src == [0]
    ensures CodedBlock(src, h, low, cap).Some?
    ensures Decode(src, 0, h, -1).out == h + CodedBlock(src, h, low, cap).value
  {
    hide Decode, CodedSeq, Legal;
    if cap > 0 {
      Accepted(src, |h| + cap, low, 0, h, -1);
    } else {
      EmptyBlock(h);
    }
  }

  lemma EmptyBlock(h: Bytes)
    ensures Decode([0], 0, h, -1) == Finished(h + [], -1, 0)
  {
  }

  // ---------------------------------------------------------------- where the dictionary lies

  // A block accepted with an external dictionary is accepted, alike, with the history before it.
  lemma {:induction false} PrefixAccepts(src: Bytes, cap: nat, low: nat, ip: nat, out: Bytes)
    requires ip < |src| && CodedSeq(src, cap, low, ip, out).Some?
    ensures CodedSeq(src, cap, 0, ip, out) == CodedSeq(src, cap, low, ip, out)
    decreases |src| - ip, 1
  {
    hide ReadUpTo, CodedMatch;
    var token := src[ip];
    var ll := token / 16;
    if ll < RUN_MASK && Quick(src, cap, ip, out) {
      PrefixMatch(src, cap, low, token, ip + 1 + ll, out + src[ip + 1..ip + 1 + ll], true);
    } else {
      var p := if ll < RUN_MASK then (ll, ip + 1) else
        var r := ReadUpTo(src, ip + 1, |src| - RUN_MASK); (r.0 % U32 + RUN_MASK, r.1);
      if |out| + p.0 <= cap - MFLIMIT && p.1 + p.0 <= |src| - 8 {
        PrefixMatch(src, cap, low, token, p.1 + p.0, out + src[p.1..p.1 + p.0], false);
      }
    }
  }

  lemma {:induction false} PrefixMatch(src: Bytes, cap: nat, low: nat, token: Byte, ip: nat, out: Bytes, quick: bool)
    requires ip + 2 < |src| && CodedMatch(src, cap, low, token, ip, out, quick).Some?
    ensures CodedMatch(src, cap, 0, token, ip, out, quick) == CodedMatch(src, cap, low, token, ip, out, quick)
    decreases |src| - ip, 0
  {
    hide ReadUpTo, ReadOffset, CodedSeq, Append;
    var p := if token % 16 < ML_MASK then (token % 16 + MINMATCH, ip + 2) else
      var r := ReadUpTo(src, ip + 2, |src| - LASTLITERALS + 1); (r.0 % U32 + ML_MASK + MINMATCH, r.1);
    PrefixAccepts(src, cap, low, p.1, Append(out, ReadOffset(src, ip), p.0));
  }

  lemma BlockPrefixAccepts(src: Bytes, h: Bytes, low: nat, cap: nat)
    requires CodedBlock(src, h, low, cap).Some?
    ensures CodedBlock(src, h, 0, cap) == CodedBlock(src, h, low, cap)
  {
    hide CodedSeq;
    if cap > 0 {
      PrefixAccepts(src, |h| + cap, low, 0, h);
    }
  }

  // A block without content is read alike as well: it holds no match.
  lemma EmptyAlike(src: Bytes, h: Bytes, low: nat, cap: nat)
    requires CodedBlock(src, h, 0, cap) == Some([])
    ensures CodedBlock(src, h, low, cap) == Some([])
  {
    hide CodedMatch, ReadUpTo;
    if cap > 0 {
      var c := |h| + cap;
      var ll := src[0] / 16;
      assert |CodedSeq(src, c, 0, 0, h).value| == |h|;
      if ll < RUN_MASK && Quick(src, c, 0, h) {
        MatchGrows(src, c, 0, src[0], 1 + ll, h + src[1..1 + ll], true);
      } else {
        var p := if ll < RUN_MASK then (ll, 1) else
          var r := ReadUpTo(src, 1, |src| - RUN_MASK); (r.0 % U32 + RUN_MASK, r.1);
        assert CodedSeq(src, c, 0, 0, h) == CodedLiterals(src, c, 0, src[0], p.1, p.0, h);
        assert CodedSeq(src, c, low, 0, h) == CodedLiterals(src, c, low, src[0], p.1, p.0, h);
        if |h| + p.0 <= c - MFLIMIT && p.1 + p.0 <= |src| - 8 {
          MatchGrows(src, c, 0, src[0], p.1 + p.0, h + src[p.1..p.1 + p.0], false);
        }
      }
    }
  }

  lemma MatchGrows(src: Bytes, cap: nat, low: nat, token: Byte, ip: nat, out: Bytes, quick: bool)
    requires ip + 2 < |src| && CodedMatch(src, cap, low, token, ip, out, quick).Some?
    ensures |CodedMatch(src, cap, low, token, ip, out, quick).value| >= |out| + MINMATCH
  {
    hide CodedSeq, ReadUpTo, ReadOffset, Append;
  }

  // Not so the other way round: a match into the last 5 bytes of the output passes only there.
  const LATE_MATCH_BLOCK: Bytes := [0xEE, 1, 2, 3, 4, 5, 6, 7, 8, 9, 10, 11, 12, 13, 14, 15, 0, 0]

  lemma ExternalRefuses()
    ensures CodedBlock(LATE_MATCH_BLOCK, [0], 1, 32).None?
    ensures CodedBlock(LATE_MATCH_BLOCK, [0], 0, 32).Some?
  {
    hide Extend, Zeros;
    var block := LATE_MATCH_BLOCK;
    var out := [0] + block[1..15];
    assert CodedSeq(block, 33, 1, 0, [0]) == CodedMatch(block, 33, 1, 0xEE, 15, out, true);
    assert CodedSeq(block, 33, 0, 0, [0]) == CodedMatch(block, 33, 0, 0xEE, 15, out, true);
    assert CodedMatch(block, 33, 0, 0xEE, 15, out, true) == CodedSeq(block, 33, 0, 17, Append(out, 15, 18));
  }

  // ---------------------------------------------------------------- blocks the format refuses

  // A block whose one match has offset 0: the format refuses it, the decoder puts in four zeros.
  const ZERO_OFFSET_BLOCK: Bytes := [16, 97, 0, 0, 80, 1, 2, 3, 4, 5]

  lemma ZeroOffsetRefused()
    ensures Decode(ZERO_OFFSET_BLOCK, 0, [], -1).ZeroOffset? && !Plain(ZERO_OFFSET_BLOCK, 0)
  {
    assert Decode(ZERO_OFFSET_BLOCK, 0, [], -1) == DecodeMatch(ZERO_OFFSET_BLOCK, 16, 2, [] + [97]);
  }

  lemma ZeroOffsetAccepted(low: nat, cap: nat)
    requires cap >= 13
    ensures CodedBlock(ZERO_OFFSET_BLOCK, [], low, cap) == Some([97, 0, 0, 0, 0, 1, 2, 3, 4, 5])
  {
    hide Zeros, Extend;
    var block := ZERO_OFFSET_BLOCK;
    assert [] + block[1..2] == [97];
    assert CodedSeq(block, cap, low, 0, []) == CodedMatch(block, cap, low, 16, 2, [97], false);
    assert CodedMatch(block, cap, low, 16, 2, [97], false) == CodedSeq(block, cap, low, 4, [97] + Zeros(4));
    FourZeros();
    assert [97, 0, 0, 0, 0] + block[5..] == [97, 0, 0, 0, 0, 1, 2, 3, 4, 5];
  }

  lemma FourZeros()
    ensures [97] + Zeros(4) == [97, 0, 0, 0, 0]
  {
  }

  // A block whose literal length is 2^32 + 15: the decoder takes 15 literals.
  ghost function LongLengthBlock(literals: Bytes): Bytes {
    [240] + seq(LONG_RUN, _ => 255) + [1] + literals
  }

  lemma LongLengthTruncated(literals: Bytes, low: nat, cap: nat)
    requires |literals| == 15 <= cap
    ensures
      var block := LongLengthBlock(literals);
      && CodedBlock(block, [], low, cap) == Some(literals)
      && Decode(block, 0, [], -1).Overlong? && !Plain(block, 0)
  {
    hide ReadUpTo, CodedMatch;
    var block := LongLengthBlock(literals);
    assert AllOnes(block, 1, LONG_RUN) && block[1 + LONG_RUN] == 1;
    OnesAddUp(block, 1, LONG_RUN);
    ReadsWhole(block, 1, |block| - RUN_MASK);
    assert ReadUpTo(block, 1, |block| - RUN_MASK) == (U32, LONG_RUN + 2);
    assert CodedSeq(block, cap, low, 0, []) == CodedLiterals(block, cap, low, 240, LONG_RUN + 2, 15, []);
    assert [] + block[LONG_RUN + 2..] == literals;
    assert LongRun(block, 1) && block[0] / 16 == 15;
  }
}
