/**
  * The LZ4 block format: sequences of literals and back references, their byte encoding,
  * and a reference decoder that copies one byte at a time.  The compressor, the decompressor and
  * the high-compression parser are all related to the definitions of this module.
  */
module Lz4Format {
  import opened Basics
  import opened ByteSeq

  const MINMATCH: nat := 4
  const LASTLITERALS: nat := 5
  const MFLIMIT: nat := 12
  const RUN_MASK: nat := 15
  const ML_MASK: nat := 15
  const MAX_DISTANCE: nat := 65535
  const MAX_INPUT_SIZE: nat := 0x7E000000
  const U32: nat := 0x1_0000_0000
  // 255 * LONG_RUN is the largest 32-bit number.
  const LONG_RUN: nat := 16843009

  // ---------------------------------------------------------------- lengths

  // The bytes after a saturated nibble: 255 as often as it fits, then the rest.
  function LenBytes(n: nat): (r: Bytes)
    ensures |r| == n / 255 + 1
  {
    if n < 255 then [n] else [255] + LenBytes(n - 255)
  }

  function LenExt(n: nat): (r: Bytes)
    ensures |r| == (n + 240) / 255
  {
    if n < 15 then [] else LenBytes(n - 15)
  }

  function Nibble(n: nat): (r: nat)
    ensures r <= 15
  {
    if n < 15 then n else 15
  }

  function Token(literals: nat, matchCode: nat): Byte {
    16 * Nibble(literals) + Nibble(matchCode)
  }

  // A length continued at index i: its value and the index after it.
  function ReadLen(src: Bytes, i: nat): (r: Option<(nat, nat)>)
    ensures r.Some? ==> i < r.value.1 <= |src|
    decreases |src| - i
  {
    if i >= |src| then None
    else if src[i] < 255 then Some((src[i], i + 1))
    else
      match ReadLen(src, i + 1)
      case None => None
      case Some(p) => Some((p.0 + 255, p.1))
  }

  // A length with its nibble: only a saturated nibble is continued.
  function ReadLength(src: Bytes, nibble: nat, i: nat): (r: Option<(nat, nat)>)
    requires i <= |src|
    ensures r.Some? ==> i <= r.value.1 <= |src|
  {
    if nibble < 15 then Some((nibble, i))
    else
      match ReadLen(src, i)
      case None => None
      case Some(p) => Some((p.0 + 15, p.1))
  }

  lemma {:induction false} ReadLenBytes(pre: Bytes, n: nat, post: Bytes)
    ensures ReadLen(pre + LenBytes(n) + post, |pre|) == Some((n, |pre| + |LenBytes(n)|))
    decreases n
  {
    var src := pre + LenBytes(n) + post;
    if n >= 255 {
      ReadLenBytes(pre + [255], n - 255, post);
      assert src == (pre + [255]) + LenBytes(n - 255) + post;
    }
  }

  lemma ReadLengthOfExt(pre: Bytes, n: nat, post: Bytes)
    ensures ReadLength(pre + LenExt(n) + post, Nibble(n), |pre|) == Some((n, |pre| + |LenExt(n)|))
  {
    if n >= 15 {
      ReadLenBytes(pre, n - 15, post);
    }
  }

  // A length that does not fit 32 bits: enough 255s, and more.
  predicate LongRun(src: Bytes, i: nat) {
    i + LONG_RUN < |src| && AllOnes(src, i, LONG_RUN) && src[i + LONG_RUN] > 0
  }

  predicate AllOnes(src: Bytes, i: nat, n: nat) {
    i + n <= |src| && forall k :: i <= k < i + n ==> src[k] == 255
  }

  // A run of 255s adds up.
  lemma {:induction false} OnesAddUp(src: Bytes, i: nat, n: nat)
    requires AllOnes(src, i, n)
    ensures ReadLen(src, i) == Plus(255 * n, ReadLen(src, i + n))
    decreases n
  {
    if n > 0 {
      OnesAddUp(src, i + 1, n - 1);
    }
  }

  // What ReadLen gives once `length` has been read and `rest` is what follows.
  ghost function Plus(length: nat, rest: Option<(nat, nat)>): Option<(nat, nat)> {
    match rest
    case None => None
    case Some(p) => Some((p.0 + length, p.1))
  }

  // A length of 2^32 or more is one that starts with such a run.
  lemma LongRunIsLarge(src: Bytes, i: nat)
    requires ReadLen(src, i).Some?
    ensures LongRun(src, i) <==> ReadLen(src, i).value.0 >= U32
  {
    var n := Ones(src, i);
    OnesAddUp(src, i, n);
    if LongRun(src, i) {
      OnesAddUp(src, i, LONG_RUN);
    } else if n < LONG_RUN {
      assert ReadLen(src, i).value.0 == 255 * n + src[i + n];
    } else {
      assert AllOnes(src, i, LONG_RUN);
      OnesAddUp(src, i, LONG_RUN);
      assert src[i + LONG_RUN] == 0;
    }
  }

  // The number of 255s before the byte that ends a length.
  ghost function Ones(src: Bytes, i: nat): (n: nat)
    requires ReadLen(src, i).Some?
    ensures AllOnes(src, i, n) && i + n < |src| && src[i + n] < 255
    decreases |src| - i
  {
    if src[i] < 255 then 0 else Ones(src, i + 1) + 1
  }

  // A length that fits 32 bits does not start with such a run, nor does its encoding.
  lemma ShortRun(pre: Bytes, n: nat, post: Bytes)
    requires RUN_MASK <= n < U32
    ensures !LongRun(pre + LenExt(n) + post, |pre|)
  {
    hide LongRun;
    ReadLenBytes(pre, n - 15, post);
    LongRunIsLarge(pre + LenExt(n) + post, |pre|);
  }

  // A little-endian 16-bit offset.
  function ReadOffset(src: Bytes, i: nat): (r: nat)
    requires i + 2 <= |src|
  {
    var low: int, high: int := src[i], src[i + 1];
    low + 256 * high
  }

  // ---------------------------------------------------------------- copies

  // The back reference copied byte by byte: each byte may be one just written.
  function Extend(out: Bytes, offset: nat, len: nat): (r: Bytes)
    requires 1 <= offset <= |out|
    ensures |r| == |out| + len && out <= r
    decreases len
  {
    if len == 0 then out else Extend(out + [out[|out| - offset]], offset, len - 1)
  }

  ghost predicate Periodic(t: Bytes, lo: nat, hi: nat, offset: nat) {
    forall i :: lo <= i < hi <= |t| && offset <= i ==> t[i] == t[i - offset]
  }

  // Extending is the only way to continue `out` with period `offset`.
  lemma {:induction false} ExtendUnique(out: Bytes, offset: nat, len: nat, t: Bytes)
    requires 1 <= offset <= |out|
    requires |t| == |out| + len
    requires t[..|out|] == out
    requires Periodic(t, |out|, |t|, offset)
    ensures t == Extend(out, offset, len)
    decreases len
  {
    if len > 0 {
      var k := |out|;
      assert t[k] == t[k - offset] == t[..k][k - offset];
      assert t[..k + 1] == out + [out[k - offset]];
      ExtendUnique(out + [out[k - offset]], offset, len - 1, t);
    }
  }

  // ---------------------------------------------------------------- sequences

  datatype Sequence = Sequence(literals: Bytes, offset: nat, mlen: nat)

  ghost predicate Encodable(s: Sequence) {
    1 <= s.offset <= MAX_DISTANCE && s.mlen >= MINMATCH
  }

  function EncodeSequence(s: Sequence): Bytes
    requires Encodable(s)
  {
    [Token(|s.literals|, s.mlen - MINMATCH)] + LenExt(|s.literals|) + s.literals
    + [s.offset % 256, s.offset / 256] + LenExt(s.mlen - MINMATCH)
  }

  function EncodeLast(literals: Bytes): Bytes {
    [Token(|literals|, 0)] + LenExt(|literals|) + literals
  }

  ghost function EncodeAll(ss: seq<Sequence>): Bytes
    requires forall s <- ss :: Encodable(s)
  {
    if ss == [] then [] else EncodeAll(ss[..|ss| - 1]) + EncodeSequence(ss[|ss| - 1])
  }

  // `ss` regenerates `data` from a history of `from` bytes up to an index: every match copies
  // bytes of the history or bytes already regenerated.
  ghost predicate Tiles(data: Bytes, ss: seq<Sequence>, upto: nat, from: nat := 0)
    decreases |ss|
  {
    upto <= |data| &&
    if ss == [] then upto == from
    else
      var s := ss[|ss| - 1];
      var start := upto - s.mlen - |s.literals|;
      var at := upto - s.mlen;
      && Encodable(s)
      && 0 <= start && s.offset <= at
      && s.literals == data[start..at]
      && Periodic(data, at, upto, s.offset)
      && Tiles(data, ss[..|ss| - 1], start, from)
  }

  lemma {:induction false} TilesEncodable(data: Bytes, ss: seq<Sequence>, upto: nat)
    requires Tiles(data, ss, upto)
    ensures forall s <- ss :: Encodable(s)
    decreases |ss|
  {
    if ss != [] {
      var s := ss[|ss| - 1];
      TilesEncodable(data, ss[..|ss| - 1], upto - s.mlen - |s.literals|);
      assert ss == ss[..|ss| - 1] + [s];
    }
  }

  // The end-of-block rules: the last match starts 12 bytes and ends 5 bytes before the end.
  ghost predicate EndRules(size: nat, ss: seq<Sequence>, upto: nat) {
    ss != [] ==> upto + LASTLITERALS <= size && upto + MFLIMIT <= size + ss[|ss| - 1].mlen
  }

  // ---------------------------------------------------------------- the reference decoder

  // `matchStart` is where the last match began (-1: no match), `tail` the number of last literals.
  // A length of 2^32 or more is set apart: the decoder adds lengths up in 32 bits.
  datatype Decoded = Finished(out: Bytes, matchStart: int, tail: nat) | Malformed | ZeroOffset | Overlong

  ghost function Decode(src: Bytes, ip: nat, out: Bytes, matchStart: int): (r: Decoded)
    requires ip <= |src|
    decreases |src| - ip, 3
  {
    if ip == |src| then Malformed
    else if src[ip] / 16 == 15 && LongRun(src, ip + 1) then Overlong
    else
      match ReadLength(src, src[ip] / 16, ip + 1)
      case None => Malformed
      case Some(p) => DecodeLiterals(src, src[ip], p.1, p.0, out, matchStart)
  }

  ghost function DecodeLiterals(src: Bytes, token: Byte, ip: nat, length: nat, out: Bytes, matchStart: int): (r: Decoded)
    requires ip <= |src|
    decreases |src| - ip, 2
  {
    if ip + length > |src| then Malformed
    else if ip + length == |src| then Finished(out + src[ip..], matchStart, length)
    else DecodeMatch(src, token, ip + length, out + src[ip..ip + length])
  }

  ghost function DecodeMatch(src: Bytes, token: Byte, ip: nat, out: Bytes): (r: Decoded)
    requires ip <= |src|
    decreases |src| - ip, 1
  {
    if ip + 2 > |src| then Malformed
    else
      var offset := ReadOffset(src, ip);
      if offset > |out| then Malformed
      else if offset == 0 then ZeroOffset
      else if token % 16 == 15 && LongRun(src, ip + 2) then Overlong
      else
        match ReadLength(src, token % 16, ip + 2)
        case None => Malformed
        case Some(p) => DecodeCopy(src, p.1, offset, p.0 + MINMATCH, out)
  }

  ghost function DecodeCopy(src: Bytes, ip: nat, offset: nat, mlen: nat, out: Bytes): (r: Decoded)
    requires ip <= |src|
    decreases |src| - ip, 4
  {
    if offset > |out| then Malformed
    else if offset == 0 then ZeroOffset
    else Decode(src, ip, Extend(out, offset, mlen), |out|)
  }

  ghost predicate Legal(d: Decoded) {
    && d.Finished?
    && (d.matchStart >= 0 ==> d.tail >= LASTLITERALS && d.matchStart + MFLIMIT <= |d.out|)
  }

  // What is left of a run that finishes.
  lemma {:induction false} DecodeBounds(src: Bytes, ip: nat, out: Bytes, matchStart: int)
    requires ip <= |src| && matchStart < |out|
    requires Decode(src, ip, out, matchStart).Finished?
    ensures var d := Decode(src, ip, out, matchStart);
      && |out| + d.tail <= |d.out| && matchStart <= d.matchStart && ip + 1 + d.tail <= |src|
    decreases |src| - ip
  {
    var p := ReadLength(src, src[ip] / 16, ip + 1).value;
    var i2 := p.1 + p.0;
    if i2 < |src| {
      var lits := out + src[p.1..i2];
      assert DecodeLiterals(src, src[ip], p.1, p.0, out, matchStart) == DecodeMatch(src, src[ip], i2, lits);
      assert DecodeMatch(src, src[ip], i2, lits).Finished?;
      var offset := ReadOffset(src, i2);
      var q := ReadLength(src, src[ip] % 16, i2 + 2).value;
      assert DecodeMatch(src, src[ip], i2, lits) == DecodeCopy(src, q.1, offset, q.0 + MINMATCH, lits);
      DecodeBounds(src, q.1, Extend(lits, offset, q.0 + MINMATCH), |lits|);
    }
  }

  // Only an input longer than such a run can hold one.
  lemma {:induction false} NotOverlong(src: Bytes, ip: nat, out: Bytes, matchStart: int)
    requires ip <= |src| && |src| <= LONG_RUN
    ensures !Decode(src, ip, out, matchStart).Overlong?
    decreases |src| - ip
  {
    if Decode(src, ip, out, matchStart).Overlong? {
      var p := ReadLength(src, src[ip] / 16, ip + 1).value;
      assert Decode(src, ip, out, matchStart) == DecodeLiterals(src, src[ip], p.1, p.0, out, matchStart);
      var i2 := p.1 + p.0;
      var lits := out + src[p.1..i2];
      assert DecodeLiterals(src, src[ip], p.1, p.0, out, matchStart) == DecodeMatch(src, src[ip], i2, lits);
      var offset := ReadOffset(src, i2);
      var q := ReadLength(src, src[ip] % 16, i2 + 2).value;
      assert DecodeMatch(src, src[ip], i2, lits) == DecodeCopy(src, q.1, offset, q.0 + MINMATCH, lits);
      NotOverlong(src, q.1, Extend(lits, offset, q.0 + MINMATCH), |lits|);
    }
  }

  // ---------------------------------------------------------------- encoding, then decoding

  lemma DecodeLastStep(pre: Bytes, literals: Bytes, out: Bytes, matchStart: int)
    requires |literals| < U32
    ensures Decode(pre + EncodeLast(literals), |pre|, out, matchStart)
         == Finished(out + literals, matchStart, |literals|)
  {
    hide LongRun;
    var token := Token(|literals|, 0);
    var src := pre + EncodeLast(literals);
    var i := |pre| + 1 + |LenExt(|literals|)|;
    assert src == (pre + [token]) + LenExt(|literals|) + literals;
    ReadLengthOfExt(pre + [token], |literals|, literals);
    if |literals| >= RUN_MASK {
      ShortRun(pre + [token], |literals|, literals);
    }
    assert src[i..] == literals;
  }

  lemma DecodeSequenceStep(pre: Bytes, s: Sequence, post: Bytes, out: Bytes, matchStart: int)
    requires Encodable(s) && |s.literals| < U32 && s.mlen < U32
    requires s.offset <= |out| + |s.literals|
    ensures Decode(pre + EncodeSequence(s) + post, |pre|, out, matchStart)
         == Decode(pre + EncodeSequence(s) + post, |pre| + |EncodeSequence(s)|,
                   Extend(out + s.literals, s.offset, s.mlen), |out| + |s.literals|)
  {
    hide LenExt, ReadLength, EncodeSequence, Extend, ReadOffset, LongRun;
    var src := pre + EncodeSequence(s) + post;
    var ll, ml := |s.literals|, s.mlen - MINMATCH;
    var token := Token(ll, ml);
    var i1 := |pre| + 1 + |LenExt(ll)|;
    HeadOfSequence(pre, s, post);
    DecodeParsed(src, |pre|, out, matchStart, ll, i1, s.offset, ml, |pre| + |EncodeSequence(s)|);
    assert src[i1..i1 + ll] == s.literals;
  }

  // One sequence of the reference decoder, when its parts are known.
  lemma DecodeParsed(src: Bytes, ip: nat, out: Bytes, matchStart: int,
                     ll: nat, i1: nat, offset: nat, ml: nat, i3: nat)
    requires ip < |src| && i1 + ll + 2 <= |src| && ip < i3 <= |src|
    requires ReadLength(src, src[ip] / 16, ip + 1) == Some((ll, i1)) && ll < U32
    requires ReadOffset(src, i1 + ll) == offset && 1 <= offset <= |out| + ll
    requires ReadLength(src, src[ip] % 16, i1 + ll + 2) == Some((ml, i3)) && ml < U32
    ensures Decode(src, ip, out, matchStart)
         == Decode(src, i3, Extend(out + src[i1..i1 + ll], offset, ml + MINMATCH), |out| + ll)
  {
    hide ReadLength, Extend, ReadOffset, LongRun;
    FitsLength(src, src[ip] / 16, ip + 1);
    FitsLength(src, src[ip] % 16, i1 + ll + 2);
    assert Decode(src, ip, out, matchStart) == DecodeLiterals(src, src[ip], i1, ll, out, matchStart);
    assert DecodeMatch(src, src[ip], i1 + ll, out + src[i1..i1 + ll])
        == DecodeCopy(src, i3, offset, ml + MINMATCH, out + src[i1..i1 + ll]);
  }

  lemma FitsLength(src: Bytes, nibble: nat, i: nat)
    requires i <= |src| && ReadLength(src, nibble, i).Some? && ReadLength(src, nibble, i).value.0 < U32
    ensures nibble == 15 ==> !LongRun(src, i)
  {
    hide LongRun;
    if nibble == 15 {
      LongRunIsLarge(src, i);
    }
  }

  lemma LittleEndian(n: nat)
    requires n <= MAX_DISTANCE
    ensures n % 256 + 256 * (n / 256) == n && n / 256 < 256
  {
  }

  lemma HeadOfSequence(pre: Bytes, s: Sequence, post: Bytes)
    requires Encodable(s)
    ensures
      var src := pre + EncodeSequence(s) + post;
      var ll, ml := |s.literals|, s.mlen - MINMATCH;
      var i1 := |pre| + 1 + |LenExt(ll)|;
      var i2 := i1 + ll;
      && i2 + 2 <= |src|
      && src[|pre|] == Token(ll, ml)
      && ReadLength(src, Nibble(ll), |pre| + 1) == Some((ll, i1))
      && src[i1..i2] == s.literals
      && ReadOffset(src, i2) == s.offset
      && ReadLength(src, Nibble(ml), i2 + 2) == Some((ml, |pre| + |EncodeSequence(s)|))
  {
    hide LenExt, ReadLength, Nibble, Token;
    var ll, ml := |s.literals|, s.mlen - MINMATCH;
    var token := [Token(ll, ml)];
    LittleEndian(s.offset);
    var offset := [s.offset % 256, s.offset / 256];
    var litExt, matchExt := LenExt(ll), LenExt(ml);
    Layout(pre, token, litExt, s.literals, offset, matchExt, post);
    ReadLengthOfExt(pre + token, ll, s.literals + offset + matchExt + post);
    ReadLengthOfExt(pre + token + litExt + s.literals + offset, ml, post);
  }

  lemma Layout(pre: Bytes, token: Bytes, litExt: Bytes, lits: Bytes, offset: Bytes, matchExt: Bytes, post: Bytes)
    requires |token| == 1 && |offset| == 2
    ensures
      var src := pre + (token + litExt + lits + offset + matchExt) + post;
      var i1 := |pre| + 1 + |litExt|;
      var i2 := i1 + |lits|;
      && src == (pre + token) + litExt + (lits + offset + matchExt + post)
      && src == (pre + token + litExt + lits + offset) + matchExt + post
      && src[|pre|] == token[0]
      && src[i1..i2] == lits
      && src[i2] == offset[0] && src[i2 + 1] == offset[1]
  {
    var src := pre + (token + litExt + lits + offset + matchExt) + post;
    var i1 := |pre| + 1 + |litExt|;
    var i2 := i1 + |lits|;
    assert src == (pre + token) + litExt + (lits + offset + matchExt + post);
    var front := pre + token + litExt;
    assert src == front + lits + (offset + matchExt + post);
    assert src[i1..i2] == lits;
    var back := front + lits;
    assert src == back + offset + (matchExt + post);
    assert src[i2] == offset[0] && src[i2 + 1] == offset[1];
    assert src == (back + offset) + matchExt + post;
  }

  // Where a tiling stands, as the reference decoder sees it.
  function LastStart(ss: seq<Sequence>, upto: nat): int {
    if ss == [] then -1 else upto - ss[|ss| - 1].mlen
  }

  // Decoding the encoding of a tiling arrives at the data it tiles.
  lemma {:induction false} DecodeTiling(data: Bytes, ss: seq<Sequence>, upto: nat, post: Bytes, h: Bytes)
    requires h <= data && Tiles(data, ss, upto, |h|) && |data| - |h| < U32
    requires forall s <- ss :: Encodable(s)
    ensures Decode(EncodeAll(ss) + post, 0, h, -1)
         == Decode(EncodeAll(ss) + post, |EncodeAll(ss)|, data[..upto], LastStart(ss, upto))
    decreases |ss|
  {
    hide Decode, EncodeSequence, Extend, Periodic;
    if ss != [] {
      var init, s := ss[..|ss| - 1], ss[|ss| - 1];
      var at := upto - s.mlen;
      var start := at - |s.literals|;
      var pre := EncodeAll(init);
      TilesBound(data, init, start, |h|);
      DecodeTiling(data, init, start, EncodeSequence(s) + post, h);
      assert EncodeAll(ss) + post == pre + (EncodeSequence(s) + post) == pre + EncodeSequence(s) + post;
      DecodeSequenceStep(pre, s, post, data[..start], LastStart(init, start));
      TilingStep(data, s, upto);
    } else {
      assert EncodeAll(ss) + post == post;
      assert data[..|h|] == h;
    }
  }

  lemma TilingStep(data: Bytes, s: Sequence, upto: nat)
    requires Encodable(s) && upto <= |data|
    requires upto - s.mlen - |s.literals| >= 0 && s.offset <= upto - s.mlen
    requires s.literals == data[upto - s.mlen - |s.literals|..upto - s.mlen]
    requires Periodic(data, upto - s.mlen, upto, s.offset)
    ensures data[..upto - s.mlen - |s.literals|] + s.literals == data[..upto - s.mlen]
    ensures Extend(data[..upto - s.mlen], s.offset, s.mlen) == data[..upto]
  {
    var t := data[..upto];
    var out := data[..upto - s.mlen];
    assert t[..|out|] == out;
    ExtendUnique(out, s.offset, s.mlen, t);
  }

  lemma {:induction false} TilesBound(data: Bytes, ss: seq<Sequence>, upto: nat, from: nat := 0)
    requires Tiles(data, ss, upto, from)
    ensures from <= upto <= |data| && (ss != [] ==> from + MINMATCH <= upto)
    decreases |ss|
  {
    if ss != [] {
      var s := ss[|ss| - 1];
      TilesBound(data, ss[..|ss| - 1], upto - s.mlen - |s.literals|, from);
    }
  }

  // The whole block: any tiling that keeps the end rules decodes, legally, to the data.
  lemma BlockDecodes(data: Bytes, ss: seq<Sequence>, upto: nat, h: Bytes := [])
    requires h <= data && Tiles(data, ss, upto, |h|) && |data| - |h| < U32
    requires forall s <- ss :: Encodable(s)
    requires EndRules(|data|, ss, upto)
    ensures upto <= |data|
    ensures
      var d := Decode(EncodeAll(ss) + EncodeLast(data[upto..]), 0, h, -1);
      d.Finished? && d.out == data && Legal(d)
  {
    hide Decode, EncodeAll, EncodeLast, Tiles, Encodable;
    TilesBound(data, ss, upto, |h|);
    DecodeTiling(data, ss, upto, EncodeLast(data[upto..]), h);
    DecodeLastStep(EncodeAll(ss), data[upto..], data[..upto], LastStart(ss, upto));
    assert data[..upto] + data[upto..] == data;
  }
}
