/**
  * The safe LZ4 block decoder: a fast loop that copies in wide strides while at least 64 bytes of
  * output are free, and a safe loop it falls into at any of three points.  For every input and
  * every capacity it stays inside both buffers, and succeeds exactly when, and with exactly what,
  * the byte-by-byte reading of Lz4Coded gives.  A block may refer to bytes in front of the output
  * and, before those, to an external dictionary.
  */
module Lz4Decode {
  import opened Basics
  import opened ByteSeq
  import opened Lz4Format
  import opened Lz4Copy
  import opened Lz4Coded

  const FASTLOOP_SAFE_DISTANCE: nat := 64

  // ---------------------------------------------------------------- points of the decoder

  // The capacity and dictionary size in the terms of Lz4Coded, and what the whole block gives.
  datatype Goal = Goal(cap: nat, low: nat, result: Option<Bytes>)

  // The history and output so far: an external dictionary, and the buffer up to `op`.
  ghost function Out(dict: Bytes, dst: array<Byte>, op: nat): Bytes
    requires op <= dst.Length
    reads dst
  {
    dict + dst[..op]
  }

  ghost predicate For(g: Goal, dict: Bytes, dst: array<Byte>) {
    g.cap == |dict| + dst.Length && g.low == |dict|
  }

  // What the whole block gives is what is left from here gives.

  ghost predicate Reached(src: Bytes, g: Goal, ip: nat, out: Bytes) {
    ip < |src| && g.result == CodedSeq(src, g.cap, g.low, ip, out)
  }

  ghost predicate AtLiterals(src: Bytes, g: Goal, token: Byte, ip: nat, length: nat, out: Bytes) {
    ip <= |src| && g.result == CodedLiterals(src, g.cap, g.low, token, ip, length, out)
  }

  ghost predicate AtMatch(src: Bytes, g: Goal, token: Byte, ip: nat, out: Bytes, quick: bool) {
    ip + 2 < |src| && g.result == CodedMatch(src, g.cap, g.low, token, ip, out, quick)
  }

  ghost predicate AtCopy(src: Bytes, g: Goal, ip: nat, offset: nat, mlen: nat, out: Bytes, free: bool) {
    ip < |src| && g.result == CodedCopy(src, g.cap, g.low, ip, offset, mlen, out, free)
  }

  // ---------------------------------------------------------------- lengths

  datatype LengthError = Good | LoopError | InitialError

  // The sum of the bytes read, kept in 32 bits.
  method ReadVariableLength(src: Bytes, ip0: nat, lencheck: int, initialCheck: bool)
    returns (ip: nat, length: nat, error: LengthError)
    requires ip0 <= |src| && lencheck <= |src|
    requires initialCheck || ip0 < |src|
    ensures ip0 <= ip <= |src|
    ensures error.InitialError? <==> initialCheck && ip0 >= lencheck
    ensures !error.InitialError? ==>
              var r := ReadUpTo(src, ip0, lencheck);
              ip == r.1 && length == r.0 % U32 && (error.Good? <==> ip < lencheck)
  {
    ip, length := ip0, 0;
    if initialCheck && ip >= lencheck {
      return ip, 0, InitialError;
    }
    ghost var sum: nat := 0;
    while true
      invariant ip0 <= ip < |src| && length == sum % U32
      invariant var r, rest := ReadUpTo(src, ip0, lencheck), ReadUpTo(src, ip, lencheck);
                r == (sum + rest.0, rest.1)
      decreases |src| - ip
    {
      var s := src[ip];
      AddMod(sum, s);
      ip := ip + 1;
      length := (length + s) % U32;
      sum := sum + s;
      if ip >= lencheck {
        return ip, length, LoopError;
      }
      if s != 255 {
        return ip, length, Good;
      }
    }
  }

  lemma AddMod(a: nat, b: nat)
    ensures (a % U32 + b) % U32 == (a + b) % U32
  {
    var q := a / U32;
    assert a + b == a % U32 + b + U32 * q;
    ModMultiple(a % U32 + b, q);
  }

  lemma ModMultiple(a: nat, q: nat)
    ensures (a + U32 * q) % U32 == a % U32
  {
    if q > 0 {
      ModMultiple(a, q - 1);
    }
  }

  // The literal length, whose loop error is ignored.
  method LiteralLength(src: Bytes, ip0: nat, token: Byte, ghost out: Bytes, ghost g: Goal)
    returns (ip: nat, length: nat, ok: bool)
    requires 1 <= ip0 <= |src| && src[ip0 - 1] == token && token / 16 == RUN_MASK
    requires Reached(src, g, ip0 - 1, out)
    ensures ip0 <= ip <= |src|
    ensures ok ==> AtLiterals(src, g, token, ip, length, out)
    ensures !ok ==> g.result.None?
  {
    hide ReadUpTo, CodedLiterals;
    var error: LengthError;
    ip, length, error := ReadVariableLength(src, ip0, |src| - RUN_MASK, true);
    length := length + RUN_MASK;
    ok := !error.InitialError?;
  }

  // ---------------------------------------------------------------- after a copy

  lemma AfterCopy(src: Bytes, g: Goal, ip: nat, offset: nat, length: nat,
                  dict: Bytes, before: Bytes, now: Bytes, op: nat, free: bool)
    requires op <= |before| == |now| && op + length <= |now|
    requires AtCopy(src, g, ip, offset, length, dict + before[..op], free) && offset <= op
    requires free || |dict| + op + length + LASTLITERALS <= g.cap
    requires Agree(now, before, 0, op) && Copied(now, op, op + length, offset)
    ensures Reached(src, g, ip, dict + now[..op + length])
  {
    hide Agree, Copied, Periodic, CodedSeq, Append;
    CopyIsAppend(dict, before, now, op, offset, length);
  }

  // What a copy leaves behind is the match of the reference.
  lemma CopyIsAppend(dict: Bytes, before: Bytes, now: Bytes, op: nat, offset: nat, length: nat)
    requires offset <= op <= |before| && op + length <= |now|
    requires Agree(now, before, 0, op) && Copied(now, op, op + length, offset)
    ensures dict + now[..op + length] == Append(dict + before[..op], offset, length)
  {
    var t := dict + now[..op + length];
    var out := dict + before[..op];
    assert t[..|out|] == out;
    if offset > 0 {
      forall i | |out| <= i < |t|
        ensures t[i] == t[i - offset]
      {
        assert t[i] == now[i - |dict|] == now[i - |dict| - offset];
      }
      ExtendUnique(out, offset, length, t);
    } else {
      assert t == out + Zeros(length);
    }
  }

  lemma AfterAppend(src: Bytes, g: Goal, ip: nat, offset: nat, length: nat, out: Bytes, free: bool)
    requires AtCopy(src, g, ip, offset, length, out, free) && offset <= |out|
    requires free || |out| + length + LASTLITERALS <= g.cap
    ensures Reached(src, g, ip, Append(out, offset, length))
  {
    hide CodedSeq, Append;
  }

  // A match that starts in the external dictionary, and may go on at the start of the buffer.
  method DictCopy(dict: Bytes, dst: array<Byte>, op: nat, offset: nat, length: nat)
    requires op < offset <= |dict| + op && op + length <= dst.Length
    modifies dst
    ensures Agree(dst[..], old(dst[..]), 0, op)
    ensures dict + dst[..op + length] == Append(dict + old(dst[..op]), offset, length)
  {
    hide Append;
    var back := offset - op;
    ghost var before := dst[..];
    if length <= back {
      CopyIn(dst, op, dict, |dict| - back, length);
      InDict(dict, before, dst[..], op, offset, length, length);
    } else {
      CopyIn(dst, op, dict, |dict| - back, back);
      var rest, e := length - back, op + back;
      ghost var half := dst[..];
      if rest > e {
        ByteTail(dst, e, 0, e + rest);
      } else {
        CopyWithin(dst, e, 0, rest);
      }
      AgreeBelow(dst[..], half, before, op, e);
      assert dst[op..op + back] == half[op..op + back];
      InDict(dict, before, dst[..], op, offset, length, back);
    }
  }

  lemma InDict(dict: Bytes, before: Bytes, now: Bytes, op: nat, offset: nat, length: nat, n: nat)
    requires op < offset <= |dict| + op && op + length <= |now| && n <= length && n <= offset - op
    requires n == length || n == offset - op
    requires Agree(now, before, 0, op) && op <= |before|
    requires var from := |dict| - (offset - op); now[op..op + n] == dict[from..from + n]
    requires Periodic(now, op + n, op + length, offset)
    ensures dict + now[..op + length] == Append(dict + before[..op], offset, length)
  {
    var t := dict + now[..op + length];
    var out := dict + before[..op];
    assert t[..|out|] == out;
    forall i | |out| <= i < |t|
      ensures t[i] == t[i - offset]
    {
      var k := i - |out|;
      if k < n {
        assert now[op + k] == now[op..op + n][k] == dict[|dict| - (offset - op) + k];
      } else {
        assert now[op + k] == now[op + k - offset];
      }
    }
    ExtendUnique(out, offset, length, t);
  }

  // Literals that are not the last.
  lemma LiteralsCopied(src: Bytes, ip: nat, length: nat, dict: Bytes, before: Bytes, now: Bytes, op: nat)
    requires op <= |before| == |now| && op + length <= |now| && ip + length <= |src|
    requires Agree(now, before, 0, op)
    requires now[op..op + length] == src[ip..ip + length]
    ensures dict + now[..op + length] == dict + before[..op] + src[ip..ip + length]
  {
    assert now[..op + length] == now[..op] + now[op..op + length];
    assert now[..op] == before[..op];
    assert dict + now[..op + length] == dict + now[..op] + now[op..op + length];
  }

  // ---------------------------------------------------------------- the fast loop

  datatype Exit = Failed | Go | ToLiterals(length: nat) | ToCopy(offset: nat, length: nat) | Done

  method FastLiterals(src: Bytes, dict: Bytes, dst: array<Byte>, ip0: nat, op0: nat, ghost g: Goal)
    returns (ip: nat, op: nat, token: Byte, exit: Exit)
    requires For(g, dict, dst)
    requires op0 + FASTLOOP_SAFE_DISTANCE <= dst.Length
    requires Reached(src, g, ip0, Out(dict, dst, op0))
    modifies dst
    ensures exit.Failed? || exit.Go? || exit.ToLiterals?
    ensures ip0 < ip <= |src| && op0 <= op <= dst.Length
    ensures exit.Failed? ==> g.result.None?
    ensures exit.ToLiterals? ==> op == op0 && AtLiterals(src, g, token, ip, exit.length, Out(dict, dst, op))
    ensures exit.Go? ==> op + 32 <= dst.Length && (token / 16 < RUN_MASK ==> op + 50 <= dst.Length)
    ensures exit.Go? ==> AtMatch(src, g, token, ip, Out(dict, dst, op), token / 16 < RUN_MASK)
  {
    hide Agree, CodedMatch, ReadUpTo;
    token := src[ip0];
    ip, op := ip0 + 1, op0;
    var length := token / 16;
    if length == RUN_MASK {
      var ok;
      ip, length, ok := LiteralLength(src, ip, token, Out(dict, dst, op), g);
      if !ok {
        return ip, op, token, Failed;
      }
      if op + length > dst.Length - 32 || ip + length > |src| - 32 {
        return ip, op, token, ToLiterals(length);
      }
      ghost var before := dst[..];
      WildCopyIn(dst, op, src, ip, op + length, 32);
      LiteralsCopied(src, ip, length, dict, before, dst[..], op);
    } else {
      if ip > |src| - 17 {
        return ip, op, token, ToLiterals(length);
      }
      ghost var before := dst[..];
      CopyIn(dst, op, src, ip, 16);
      FewerCopied(dst[..], op, src, ip, 16, length);
      LiteralsCopied(src, ip, length, dict, before, dst[..], op);
    }
    ip, op := ip + length, op + length;
    exit := Go;
  }

  lemma FewerCopied(now: Bytes, d: nat, src: Bytes, s: nat, n: nat, m: nat)
    requires d + n <= |now| && s + n <= |src| && m <= n
    requires now[d..d + n] == src[s..s + n]
    ensures now[d..d + m] == src[s..s + m]
  {
    assert now[d..d + m] == now[d..d + n][..m];
    assert src[s..s + m] == src[s..s + n][..m];
  }

  // The offset and length of a match; `ok` is false on the decoder's errors.
  method MatchLength(src: Bytes, token: Byte, ip0: nat, ghost out: Bytes, ghost quick: bool, ghost g: Goal)
    returns (ip: nat, length: nat, ok: bool)
    requires 2 <= ip0 && AtMatch(src, g, token, ip0 - 2, out, quick)
    ensures ip0 <= ip <= |src|
    ensures ok ==> length >= MINMATCH
    ensures ok ==> var offset := ReadOffset(src, ip0 - 2);
              AtCopy(src, g, ip, offset, length, out, quick && token % 16 < ML_MASK && 8 <= offset <= |out| - g.low)
    ensures token % 16 < ML_MASK ==> ok && length < 19
    ensures !ok ==> g.result.None?
  {
    hide ReadUpTo, ReadOffset, CodedCopy;
    ip, length, ok := ip0, token % 16, true;
    if length == ML_MASK {
      var error: LengthError;
      ip, length, error := ReadVariableLength(src, ip0, |src| - LASTLITERALS + 1, false);
      length := length + ML_MASK;
      if !error.Good? {
        return ip, length, false;
      }
    }
    length := length + MINMATCH;
  }

  method FastMatch(src: Bytes, dict: Bytes, dst: array<Byte>, token: Byte, ip0: nat, op0: nat, ghost quick: bool, ghost g: Goal)
    returns (ip: nat, op: nat, exit: Exit)
    requires For(g, dict, dst)
    requires op0 + 32 <= dst.Length && (quick ==> op0 + 50 <= dst.Length)
    requires AtMatch(src, g, token, ip0, Out(dict, dst, op0), quick)
    modifies dst
    ensures exit.Failed? || exit.Go? || exit.ToCopy?
    ensures ip0 < ip <= |src| && op0 <= op <= dst.Length
    ensures exit.Failed? ==> g.result.None?
    ensures exit.ToCopy? ==> op == op0 && exit.length >= MINMATCH
    ensures exit.ToCopy? ==> AtCopy(src, g, ip, exit.offset, exit.length, Out(dict, dst, op), false)
    ensures exit.Go? ==> op + FASTLOOP_SAFE_DISTANCE <= dst.Length
    ensures exit.Go? ==> Reached(src, g, ip, Out(dict, dst, op))
  {
    hide Agree, Copied, AtMatch, AtCopy, Reached, ReadOffset;
    MatchInside(src, g, token, ip0, Out(dict, dst, op0), quick);
    var offset := ReadOffset(src, ip0);
    op := op0;
    if token % 16 == ML_MASK && offset > |dict| + op {
      FarOffset(src, g, token, ip0, Out(dict, dst, op), quick);
      return ip0 + 2, op, Failed;
    }
    var length, ok;
    ip, length, ok := MatchLength(src, token, ip0 + 2, Out(dict, dst, op), quick, g);
    if !ok {
      return ip, op, Failed;
    }
    ghost var free := quick && token % 16 < ML_MASK && 8 <= offset <= op;
    TestPassed(src, g, ip, offset, length, Out(dict, dst, op), free);
    if op + length >= dst.Length - FASTLOOP_SAFE_DISTANCE {
      return ip, op, ToCopy(offset, length);
    }
    if offset > |dict| + op {
      FarOffset(src, g, token, ip0, Out(dict, dst, op), quick);
      return ip, op, Failed;
    }
    ghost var before := dst[..];
    if offset > op {
      DictCopy(dict, dst, op, offset, length);
      AfterAppend(src, g, ip, offset, length, dict + before[..op], free);
    } else {
      FastCopy(dst, op, offset, length, token % 16 != ML_MASK);
      AfterCopy(src, g, ip, offset, length, dict, before, dst[..], op, free);
    }
    op := op + length;
    exit := Go;
  }

  lemma MatchInside(src: Bytes, g: Goal, token: Byte, ip: nat, out: Bytes, quick: bool)
    requires AtMatch(src, g, token, ip, out, quick)
    ensures ip + 2 < |src|
  {
  }

  // The test of the output's end, where it passes or does not apply.
  lemma TestPassed(src: Bytes, g: Goal, ip: nat, offset: nat, mlen: nat, out: Bytes, free: bool)
    requires AtCopy(src, g, ip, offset, mlen, out, free)
    ensures ip < |src|
    ensures !free || |out| + mlen + LASTLITERALS <= g.cap ==> AtCopy(src, g, ip, offset, mlen, out, false)
  {
    hide CodedSeq, Append;
  }

  lemma FarOffset(src: Bytes, g: Goal, token: Byte, ip: nat, out: Bytes, quick: bool)
    requires AtMatch(src, g, token, ip, out, quick) && ReadOffset(src, ip) > |out|
    ensures g.result.None?
  {
    hide ReadUpTo, ReadOffset, CodedSeq;
    FarCopy(src, g, ip + 2, ReadOffset(src, ip), token % 16 + MINMATCH, out, false);
    var r := ReadUpTo(src, ip + 2, |src| - LASTLITERALS + 1);
    if r.1 < |src| {
      FarCopy(src, g, r.1, ReadOffset(src, ip), r.0 % U32 + ML_MASK + MINMATCH, out, false);
    }
  }

  lemma FarCopy(src: Bytes, g: Goal, ip: nat, offset: nat, mlen: nat, out: Bytes, free: bool)
    requires ip < |src| && offset > |out|
    ensures CodedCopy(src, g.cap, g.low, ip, offset, mlen, out, free).None?
  {
  }

  // The three copies of the fast loop.
  method FastCopy(dst: array<Byte>, op: nat, offset: nat, length: nat, short: bool)
    requires offset <= op && op + length + FASTLOOP_SAFE_DISTANCE <= dst.Length && length >= MINMATCH
    requires short ==> length < 19
    modifies dst
    ensures Agree(dst[..], old(dst[..]), 0, op)
    ensures Copied(dst[..], op, op + length, offset)
  {
    hide Agree, Periodic, Copied;
    var e := op + length;
    if short && offset >= 8 {
      Copy18(dst, op, offset);
      PeriodicShorter(dst[..], op, op + 18, e, offset);
      IsCopied(dst[..], op, e, offset);
    } else if offset < 16 {
      UsingOffset(dst, op, offset, e);
    } else {
      WildCopy32(dst, op, op - offset, e);
      PeriodicShorter(dst[..], op, Max(op + 32, e), e, offset);
      IsCopied(dst[..], op, e, offset);
    }
  }

  method FastLoop(src: Bytes, dict: Bytes, dst: array<Byte>, from: nat, ghost g: Goal)
    returns (ip: nat, op: nat, token: Byte, exit: Exit)
    requires For(g, dict, dst) && from + FASTLOOP_SAFE_DISTANCE <= dst.Length
    requires Reached(src, g, 0, Out(dict, dst, from))
    modifies dst
    ensures exit.Failed? || exit.ToLiterals? || exit.ToCopy?
    ensures 0 < ip <= |src| && from <= op <= dst.Length
    ensures exit.Failed? ==> g.result.None?
    ensures exit.ToLiterals? ==> AtLiterals(src, g, token, ip, exit.length, Out(dict, dst, op))
    ensures exit.ToCopy? ==> op + 32 <= dst.Length && exit.length >= MINMATCH
    ensures exit.ToCopy? ==> AtCopy(src, g, ip, exit.offset, exit.length, Out(dict, dst, op), false)
  {
    hide AtMatch, AtCopy, AtLiterals, CodedSeq;
    ip, op := 0, from;
    while true
      invariant from <= op && op + FASTLOOP_SAFE_DISTANCE <= dst.Length
      invariant Reached(src, g, ip, Out(dict, dst, op))
      decreases |src| - ip
    {
      ip, op, token, exit := FastLiterals(src, dict, dst, ip, op, g);
      if !exit.Go? {
        return;
      }
      ip, op, exit := FastMatch(src, dict, dst, token, ip, op, token / 16 < RUN_MASK, g);
      if !exit.Go? {
        return;
      }
    }
  }

  // ---------------------------------------------------------------- the safe loop

  method SafeLiterals(src: Bytes, dict: Bytes, dst: array<Byte>, token: Byte, ip0: nat, op0: nat, length: nat, ghost g: Goal)
    returns (ip: nat, op: nat, exit: Exit)
    requires For(g, dict, dst)
    requires ip0 <= |src| && op0 <= dst.Length
    requires AtLiterals(src, g, token, ip0, length, Out(dict, dst, op0))
    modifies dst
    ensures exit.Failed? || exit.Go? || exit.Done?
    ensures ip0 <= ip <= |src| && op0 <= op <= dst.Length
    ensures exit.Failed? ==> g.result.None?
    ensures exit.Done? ==> g.result == Some(Out(dict, dst, op))
    ensures exit.Go? ==> op + MFLIMIT <= dst.Length && AtMatch(src, g, token, ip, Out(dict, dst, op), false)
  {
    hide Agree, CodedMatch;
    ip, op := ip0, op0;
    var e := op + length;
    ghost var before := dst[..];
    if e > dst.Length - MFLIMIT || ip + length > |src| - (2 + 1 + LASTLITERALS) {
      if ip + length != |src| || e > dst.Length {
        return ip, op, Failed;
      }
      CopyIn(dst, op, src, ip, length);
      LiteralsCopied(src, ip, length, dict, before, dst[..], op);
      assert src[ip..ip + length] == src[ip..];
      return ip + length, e, Done;
    }
    WildCopyIn(dst, op, src, ip, e, 8);
    LiteralsCopied(src, ip, length, dict, before, dst[..], op);
    return ip + length, e, Go;
  }

  method SafeMatchCopy(src: Bytes, dict: Bytes, dst: array<Byte>, ip: nat, op0: nat, offset: nat, length: nat, ghost g: Goal)
    returns (op: nat, ok: bool)
    requires For(g, dict, dst)
    requires op0 + MFLIMIT <= dst.Length && length >= MINMATCH
    requires AtCopy(src, g, ip, offset, length, Out(dict, dst, op0), false)
    modifies dst
    ensures op0 <= op <= dst.Length
    ensures !ok ==> g.result.None?
    ensures ok ==> Reached(src, g, ip, Out(dict, dst, op))
  {
    hide Agree, Copied, AtCopy, Reached;
    op := op0;
    CopyRefused(src, g, ip, offset, length, Out(dict, dst, op));
    if offset > |dict| + op {
      return op, false;
    }
    ghost var before := dst[..];
    if offset > op {
      if op + length > dst.Length - LASTLITERALS {
        return op, false;
      }
      DictCopy(dict, dst, op, offset, length);
      AfterAppend(src, g, ip, offset, length, dict + before[..op], false);
      return op + length, true;
    }
    ok := SafeCopy(dst, op, offset, length);
    if ok {
      AfterCopy(src, g, ip, offset, length, dict, before, dst[..], op, false);
      op := op + length;
    }
  }

  lemma CopyRefused(src: Bytes, g: Goal, ip: nat, offset: nat, mlen: nat, out: Bytes)
    requires AtCopy(src, g, ip, offset, mlen, out, false)
    ensures offset > |out| || |out| + mlen + LASTLITERALS > g.cap ==> g.result.None?
  {
    hide CodedSeq, Append;
  }

  // From the offset to the end of the match.
  method SafeMatch(src: Bytes, dict: Bytes, dst: array<Byte>, token: Byte, ip0: nat, op0: nat, ghost g: Goal)
    returns (ip: nat, op: nat, exit: Exit)
    requires For(g, dict, dst)
    requires op0 + MFLIMIT <= dst.Length
    requires AtMatch(src, g, token, ip0, Out(dict, dst, op0), false)
    modifies dst
    ensures exit.Failed? || exit.Go?
    ensures ip0 < ip <= |src| && op0 <= op <= dst.Length
    ensures exit.Failed? ==> g.result.None?
    ensures exit.Go? ==> Reached(src, g, ip, Out(dict, dst, op))
  {
    hide AtMatch, AtCopy, Reached, ReadOffset;
    MatchInside(src, g, token, ip0, Out(dict, dst, op0), false);
    op := op0;
    var offset := ReadOffset(src, ip0);
    var length, ok;
    ip, length, ok := MatchLength(src, token, ip0 + 2, Out(dict, dst, op), false, g);
    if ok {
      op, ok := SafeMatchCopy(src, dict, dst, ip, op, offset, length, g);
    }
    exit := if ok then Go else Failed;
  }

  // The two-stage shortcut: 16 bytes for at most 14 literals, 18 for a short match.  It either
  // finishes the sequence (Go) or leaves the match to the general path (ToCopy).
  method Shortcut(src: Bytes, dict: Bytes, dst: array<Byte>, ip0: nat, op0: nat, ghost g: Goal)
    returns (ip: nat, op: nat, exit: Exit)
    requires For(g, dict, dst)
    requires ip0 + 1 < |src| - 16 && op0 <= dst.Length - 32
    requires Reached(src, g, ip0, Out(dict, dst, op0)) && src[ip0] / 16 < RUN_MASK
    modifies dst
    ensures exit.Go? || exit.ToCopy?
    ensures ip0 < ip <= |src| && op0 <= op <= dst.Length
    ensures exit.Go? ==> Reached(src, g, ip, Out(dict, dst, op))
    ensures exit.ToCopy? ==> op + MFLIMIT <= dst.Length
    ensures exit.ToCopy? ==> AtMatch(src, g, src[ip0], ip, Out(dict, dst, op), false)
  {
    hide Agree, Copied, Periodic, AtCopy, ReadOffset, CodedMatch;
    var token := src[ip0];
    var length := token / 16;
    ghost var before := dst[..];
    CopyIn(dst, op0, src, ip0 + 1, 16);
    FewerCopied(dst[..], op0, src, ip0 + 1, 16, length);
    LiteralsCopied(src, ip0 + 1, length, dict, before, dst[..], op0);
    ip, op := ip0 + 1 + length, op0 + length;
    assert AtMatch(src, g, token, ip, Out(dict, dst, op), true);
    var mlen := token % 16;
    var offset := ReadOffset(src, ip);
    if mlen != ML_MASK && offset >= 8 && offset <= op {
      QuickMatch(src, g, token, ip, Out(dict, dst, op));
      before := dst[..];
      Copy18(dst, op, offset);
      mlen := mlen + MINMATCH;
      PeriodicShorter(dst[..], op, op + 18, op + mlen, offset);
      IsCopied(dst[..], op, op + mlen, offset);
      AfterCopy(src, g, ip + 2, offset, mlen, dict, before, dst[..], op, true);
      return ip + 2, op + mlen, Go;
    }
    SlowMatch(src, g, token, ip, Out(dict, dst, op));
    exit := ToCopy(offset, mlen);
  }

  lemma QuickMatch(src: Bytes, g: Goal, token: Byte, ip: nat, out: Bytes)
    requires AtMatch(src, g, token, ip, out, true) && token % 16 < ML_MASK
    requires 8 <= ReadOffset(src, ip) <= |out| - g.low
    ensures AtCopy(src, g, ip + 2, ReadOffset(src, ip), token % 16 + MINMATCH, out, true)
  {
    hide CodedCopy, ReadOffset;
  }

  // A match the shortcut leaves is tested against the end of the output as any other.
  lemma SlowMatch(src: Bytes, g: Goal, token: Byte, ip: nat, out: Bytes)
    requires AtMatch(src, g, token, ip, out, true)
    requires token % 16 == ML_MASK || ReadOffset(src, ip) < 8 || ReadOffset(src, ip) > |out| - g.low
    ensures AtMatch(src, g, token, ip, out, false)
  {
    hide ReadUpTo, ReadOffset, CodedCopy;
  }

  // One sequence of the safe loop, from its token.
  method SafeSequence(src: Bytes, dict: Bytes, dst: array<Byte>, ip0: nat, op0: nat, ghost g: Goal)
    returns (ip: nat, op: nat, exit: Exit)
    requires For(g, dict, dst)
    requires op0 <= dst.Length && Reached(src, g, ip0, Out(dict, dst, op0))
    modifies dst
    ensures exit.Failed? || exit.Go? || exit.Done?
    ensures ip0 < ip <= |src| && op0 <= op <= dst.Length
    ensures exit.Failed? ==> g.result.None?
    ensures exit.Done? ==> g.result == Some(Out(dict, dst, op))
    ensures exit.Go? ==> Reached(src, g, ip, Out(dict, dst, op))
  {
    hide AtMatch, CodedLiterals, CodedMatch, ReadUpTo;
    var token := src[ip0];
    ip, op := ip0 + 1, op0;
    var length := token / 16;
    if length != RUN_MASK {
      if ip < |src| - 16 && op <= dst.Length - 32 {
        ip, op, exit := Shortcut(src, dict, dst, ip0, op, g);
        if exit.ToCopy? {
          ip, op, exit := SafeMatch(src, dict, dst, token, ip, op, g);
        }
        return;
      }
    } else {
      var ok;
      ip, length, ok := LiteralLength(src, ip, token, Out(dict, dst, op), g);
      if !ok {
        return ip, op, Failed;
      }
    }
    ip, op, exit := FromLiterals(src, dict, dst, token, ip, op, length, g);
  }

  // The safe loop entered at its literals.
  method FromLiterals(src: Bytes, dict: Bytes, dst: array<Byte>, token: Byte, ip0: nat, op0: nat, length: nat, ghost g: Goal)
    returns (ip: nat, op: nat, exit: Exit)
    requires For(g, dict, dst)
    requires ip0 <= |src| && op0 <= dst.Length
    requires AtLiterals(src, g, token, ip0, length, Out(dict, dst, op0))
    modifies dst
    ensures exit.Failed? || exit.Go? || exit.Done?
    ensures ip0 <= ip <= |src| && op0 <= op <= dst.Length
    ensures exit.Failed? ==> g.result.None?
    ensures exit.Done? ==> g.result == Some(Out(dict, dst, op))
    ensures exit.Go? ==> Reached(src, g, ip, Out(dict, dst, op))
  {
    hide *;
    ip, op, exit := SafeLiterals(src, dict, dst, token, ip0, op0, length, g);
    if exit.Go? {
      ip, op, exit := SafeMatch(src, dict, dst, token, ip, op, g);
    }
  }

  // ---------------------------------------------------------------- the decoder

  // The output goes behind the first `from` bytes of the buffer.
  method DecompressGeneric(src: Bytes, dict: Bytes, dst: array<Byte>, from: nat) returns (r: int)
    requires from <= dst.Length
    modifies dst
    ensures r <= dst.Length - from
    ensures
      var c := CodedBlock(src, dict + old(dst[..from]), |dict|, dst.Length - from);
      && (r >= 0 <==> c.Some?)
      && (r >= 0 ==> c == Some(dst[from..from + r]) && dst[..from] == old(dst[..from]))
  {
    hide CodedSeq, AtLiterals, AtCopy, Reached;
    ghost var h := dict + dst[..from];
    if dst.Length == from {
      r := if |src| == 1 && src[0] == 0 then 0 else -1;
      assert dst[from..from] == [];
      return;
    }
    if |src| == 0 {
      return -1;
    }
    ghost var g := Goal(|dict| + dst.Length, |dict|, CodedSeq(src, |dict| + dst.Length, |dict|, 0, h));
    var ip: nat, op: nat, token: Byte, exit := 0, from, 0, Go;
    Start(src, g, h);
    if dst.Length - from >= FASTLOOP_SAFE_DISTANCE {
      ip, op, token, exit := FastLoop(src, dict, dst, from, g);
      if exit.ToLiterals? {
        ip, op, exit := FromLiterals(src, dict, dst, token, ip, op, exit.length, g);
      } else if exit.ToCopy? {
        var ok;
        op, ok := SafeMatchCopy(src, dict, dst, ip, op, exit.offset, exit.length, g);
        exit := if ok then Go else Failed;
      }
    }
    while exit.Go?
      invariant ip <= |src| && from <= op <= dst.Length
      invariant exit.Failed? || exit.Go? || exit.Done?
      invariant exit.Failed? ==> g.result.None?
      invariant exit.Done? ==> g.result == Some(Out(dict, dst, op))
      invariant exit.Go? ==> Reached(src, g, ip, Out(dict, dst, op))
      decreases |src| - ip, exit.Go?
    {
      ip, op, exit := SafeSequence(src, dict, dst, ip, op, g);
    }
    if exit.Done? {
      Added(dict, h, dst[..], from, op);
      return op - from;
    }
    r := -(ip as int) - 1;
  }

  lemma Start(src: Bytes, g: Goal, h: Bytes)
    requires |src| > 0 && g.result == CodedSeq(src, g.cap, g.low, 0, h)
    ensures Reached(src, g, 0, h)
  {
  }

  lemma Added(dict: Bytes, h: Bytes, now: Bytes, from: nat, op: nat)
    requires from <= op <= |now| && |h| == |dict| + from && h <= dict + now[..op]
    ensures (dict + now[..op])[|h|..] == now[from..op] && h[|dict|..] == now[..from]
  {
    assert h[|dict|..] == (dict + now[..op])[..|h|][|dict|..] == now[..from];
  }

  // Without history.
  method DecompressSafe(src: Bytes, dst: array<Byte>) returns (r: int)
    modifies dst
    ensures r <= dst.Length
    ensures r >= 0 <==> CodedBlock(src, [], 0, dst.Length).Some?
    ensures r >= 0 ==> CodedBlock(src, [], 0, dst.Length) == Some(dst[..r])
  {
    hide CodedBlock;
    assert [] + dst[..0] == [];
    r := DecompressGeneric(src, [], dst, 0);
    assert r >= 0 ==> dst[0..0 + r] == dst[..r];
  }

  // Decompression undoes any encoding that tiles the data and keeps the end rules.
  method DecodeBlock(data: Bytes, ghost ss: seq<Sequence>, ghost upto: nat, block: Bytes, dst: array<Byte>)
    returns (r: int)
    requires Tiles(data, ss, upto) && EndRules(|data|, ss, upto) && (forall s <- ss :: Encodable(s)) && |data| < U32
    requires block == EncodeAll(ss) + EncodeLast(data[upto..])
    requires dst.Length >= |data|
    modifies dst
    ensures r == |data| && dst[..r] == data
  {
    hide Decode, Tiles, EncodeAll, EncodeLast, Legal, EndRules, Encodable, CodedBlock;
    TilesBound(data, ss, upto);
    BlockDecodes(data, ss, upto);
    if |data| == 0 {
      EmptyEncoding(data, ss, upto);
    }
    BlockAccepted(block, [], 0, dst.Length);
    r := DecompressSafe(block, dst);
  }

  lemma EmptyEncoding(data: Bytes, ss: seq<Sequence>, upto: nat)
    requires Tiles(data, ss, upto) && (forall s <- ss :: Encodable(s)) && |data| == 0
    ensures upto == 0 && EncodeAll(ss) + EncodeLast(data[upto..]) == [0]
  {
    assert ss == [];
    assert data[upto..] == [];
  }
}
