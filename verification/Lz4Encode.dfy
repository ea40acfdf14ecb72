/**
  * The fast LZ4 compressor on one block without a dictionary: hash-table search with growing
  * steps, backward extension, literal and match emission with its wide stores.  The hash is an
  * arbitrary function of the position.  The bytes emitted are exactly those of the greedy parse,
  * whenever they fit; they encode a tiling of the input that keeps the end-of-block rules, inside
  * the documented bound.
  */
module Lz4Encode {
  import opened Basics
  import opened ByteSeq
  import opened Lz4Format
  import opened Lz4Copy
  import opened Lz4Decode
  import opened Lz4Greedy

  function CompressBound(size: nat): nat {
    if size > MAX_INPUT_SIZE then 0 else size + size / 255 + 16
  }

  // ---------------------------------------------------------------- size of an encoding

  lemma SequenceSize(s: Sequence)
    requires Encodable(s)
    ensures |EncodeSequence(s)| <= |s.literals| + s.mlen + |s.literals| / 255
  {
  }

  lemma {:induction false} EncodingSize(data: Bytes, ss: seq<Sequence>, upto: nat)
    requires Tiles(data, ss, upto)
    requires forall s <- ss :: Encodable(s)
    ensures |EncodeAll(ss)| <= upto + upto / 255
    decreases |ss|
  {
    hide EncodeSequence, Periodic;
    if ss != [] {
      var init, s := ss[..|ss| - 1], ss[|ss| - 1];
      EncodingSize(data, init, upto - s.mlen - |s.literals|);
      SequenceSize(s);
      assert EncodeAll(ss) == EncodeAll(init) + EncodeSequence(s);
    }
  }

  // Any block of a tiling fits the documented bound.
  lemma BlockSize(data: Bytes, ss: seq<Sequence>, upto: nat)
    requires Tiles(data, ss, upto)
    requires forall s <- ss :: Encodable(s)
    ensures |EncodeAll(ss) + EncodeLast(data[upto..])| <= |data| + |data| / 255 + 16
  {
    EncodingSize(data, ss, upto);
  }

  // ---------------------------------------------------------------- match length

  ghost predicate Differ(src: Bytes, m: nat, ip: nat, k: nat) {
    m < ip && ip + k < |src| && src[m + k] != src[ip + k]
  }

  // The number of leading bytes two words share.
  method CommonBytes(src: Bytes, a: nat, b: nat, size: nat) returns (c: nat)
    requires a < b && b + size <= |src|
    ensures c <= size && Matches(src, a, b, c)
    ensures c < size ==> Differ(src, a, b, c)
  {
    c := 0;
    while c < size && src[a + c] == src[b + c]
      invariant c <= size && Matches(src, a, b, c)
    {
      c := c + 1;
    }
  }

  // The run ends within the next `w` bytes.
  ghost predicate EndsWithin(src: Bytes, m: nat, ip: nat, c: nat, limit: nat, w: nat) {
    limit - (ip + c) < w || exists e: nat :: c <= e < c + w && ip + e < limit && Differ(src, m, ip, e)
  }

  // One comparison of `w` bytes: it leaves less than `w` to find.
  method Probe(src: Bytes, m: nat, ip: nat, c0: nat, limit: nat, w: nat) returns (c: nat)
    requires m < ip && ip + c0 <= limit <= |src| && w >= 1
    requires Matches(src, m, ip, c0) && EndsWithin(src, m, ip, c0, limit, 2 * w)
    ensures c0 <= c && ip + c <= limit && Matches(src, m, ip, c)
    ensures EndsWithin(src, m, ip, c, limit, w)
  {
    hide Matches;
    c := c0;
    if ip + c + (w - 1) < limit {
      var same := CommonBytes(src, m + c, ip + c, w);
      if same == w {
        MatchesMore(src, m, ip, c, w);
        if limit - (ip + c) >= 2 * w {
          ghost var e: nat :| c <= e < c + 2 * w && ip + e < limit && Differ(src, m, ip, e);
          NotBoth(src, m + c, ip + c, w, e - c);
        }
        c := c + w;
      } else {
        assert Differ(src, m, ip, c + same);
      }
    }
  }

  lemma NotBoth(src: Bytes, m: nat, ip: nat, w: nat, d: nat)
    requires Matches(src, m, ip, w) && Differ(src, m, ip, d)
    ensures d >= w
  {
  }

  // The longest common run before `limit`, found in words, then in halves of a word.
  method Count(src: Bytes, pin: nat, pmatch: nat, limit: nat) returns (c: nat)
    requires pmatch < pin <= limit <= |src|
    ensures pin + c <= limit && Matches(src, pmatch, pin, c)
    ensures pin + c < limit ==> src[pmatch + c] != src[pin + c]
    ensures c == Common(src, pmatch, pin, limit)
  {
    hide Matches;
    c := CountWords(src, pin, pmatch, limit);
    CommonIs(src, pmatch, pin, limit, c);
  }

  method CountWords(src: Bytes, pin: nat, pmatch: nat, limit: nat) returns (c: nat)
    requires pmatch < pin <= limit <= |src|
    ensures pin + c <= limit && Matches(src, pmatch, pin, c)
    ensures pin + c < limit ==> src[pmatch + c] != src[pin + c]
  {
    hide Matches;
    c := 0;
    NoMatch(src, pmatch, pin);
    while pin + c + 7 < limit
      invariant pin + c <= limit && Matches(src, pmatch, pin, c)
    {
      var same := CommonBytes(src, pmatch + c, pin + c, 8);
      MatchesMore(src, pmatch, pin, c, same);
      c := c + same;
      if same < 8 {
        return;
      }
    }
    c := Probe(src, pmatch, pin, c, limit, 4);
    c := Probe(src, pmatch, pin, c, limit, 2);
    c := Probe(src, pmatch, pin, c, limit, 1);
  }

  lemma NoMatch(src: Bytes, m: nat, ip: nat)
    requires m < ip <= |src|
    ensures Matches(src, m, ip, 0)
  {
  }

  lemma MatchesMore(src: Bytes, m: nat, ip: nat, c: nat, more: nat)
    requires Matches(src, m, ip, c) && Matches(src, m + c, ip + c, more)
    ensures Matches(src, m, ip, c + more)
  {
  }

  // ---------------------------------------------------------------- search

  ghost predicate TableBelow(table: seq<nat>, bound: nat) {
    forall h :: 0 <= h < |table| ==> table[h] < bound
  }

  // Is there a match at `ip` with the position its slot holds?  The slot then holds `ip`.
  method TryPosition(src: Bytes, table: array<nat>, hash: nat --> nat, ip: nat, checkDistance: bool)
    returns (found: bool, m: nat)
    requires ip + MFLIMIT <= |src| && HashOf(hash, table.Length, |src|)
    requires !checkDistance ==> |src| < LIMIT_64K
    requires TableBelow(table[..], ip)
    modifies table
    ensures TableBelow(table[..], ip + 1)
    ensures hash.requires(ip) && hash(ip) < table.Length
    ensures table[..] == old(table[..])[hash(ip) := ip] && m == old(table[hash(ip)])
    ensures found <==> Hit(src, m, ip, checkDistance)
    ensures found ==> Candidate(src, m, ip)
  {
    var h := hash(ip);
    m := table[h];
    table[h] := ip;
    if checkDistance && m + MAX_DISTANCE < ip {
      return false, m;
    }
    var same := CommonBytes(src, m, ip, MINMATCH);
    found := same == MINMATCH;
  }

  // Steps grow by one after every 64 misses; the search gives up 11 bytes before the end.
  method FindMatch(src: Bytes, table: array<nat>, hash: nat --> nat, ip0: nat, acceleration: nat, checkDistance: bool)
    returns (found: bool, ip: nat, m: nat)
    requires |src| >= MIN_LENGTH && ip0 <= |src| - MFLIMIT + 1 && acceleration >= 1
    requires HashOf(hash, table.Length, |src|)
    requires !checkDistance ==> |src| < LIMIT_64K
    requires TableBelow(table[..], ip0)
    modifies table
    ensures found ==> ip0 <= ip && Candidate(src, m, ip) && TableBelow(table[..], ip + 1)
    ensures Search(src, old(table[..]), hash, checkDistance, ip0, 1, acceleration * 64)
         == if found then FoundAt(ip, m, table[..]) else NotFound(table[..])
  {
    hide Matches, HashOf, Hit, Search, Candidate;
    var forwardIp, step, searchMatchNb := ip0, 1, acceleration * 64;
    ip, m, found := ip0, 0, false;
    while true
      invariant ip0 <= forwardIp <= |src| - MFLIMIT + 1 && step >= 1 && searchMatchNb >= 64
      invariant TableBelow(table[..], forwardIp)
      invariant Search(src, table[..], hash, checkDistance, forwardIp, step, searchMatchNb)
             == Search(src, old(table[..]), hash, checkDistance, ip0, 1, acceleration * 64)
      decreases |src| - forwardIp
    {
      SearchIs(src, table[..], hash, checkDistance, forwardIp, step, searchMatchNb);
      ip := forwardIp;
      forwardIp := forwardIp + step;
      step := searchMatchNb / 64;
      searchMatchNb := searchMatchNb + 1;
      if forwardIp > |src| - MFLIMIT + 1 {
        return false, ip, m;
      }
      found, m := TryPosition(src, table, hash, ip, checkDistance);
      if found {
        return;
      }
    }
  }

  method CatchUp(src: Bytes, anchor: nat, ip0: nat, m0: nat) returns (ip: nat, m: nat)
    requires anchor <= ip0 && Candidate(src, m0, ip0)
    ensures anchor <= ip <= ip0 && Candidate(src, m, ip)
    ensures ip0 - ip == m0 - m == Back(src, anchor, ip0, m0) && Matches(src, m, ip, ip0 - ip + MINMATCH)
  {
    ip, m := ip0, m0;
    while ip > anchor && m > 0 && src[ip - 1] == src[m - 1]
      invariant anchor <= ip <= ip0 && ip0 - ip == m0 - m
      invariant Matches(src, m, ip, ip0 - ip + MINMATCH)
      invariant ip0 - ip + Back(src, anchor, ip, m) == Back(src, anchor, ip0, m0)
    {
      ip, m := ip - 1, m - 1;
    }
  }

  // ---------------------------------------------------------------- emission

  // A run of 255s closed by a smaller byte, one byte at a time.
  method WriteLength(dest: array<Byte>, op0: nat, n: nat) returns (op: nat)
    requires op0 + n / 255 + 1 <= dest.Length
    modifies dest
    ensures op == op0 + |LenBytes(n)| && op <= dest.Length
    ensures dest[..op] == old(dest[..op0]) + LenBytes(n)
  {
    op := op0;
    var len := n;
    while len >= 255
      invariant op0 <= op && op + len / 255 + 1 <= dest.Length
      invariant dest[..op] + LenBytes(len) == old(dest[..op0]) + LenBytes(n)
    {
      ghost var before := dest[..op];
      dest[op] := 255;
      op, len := op + 1, len - 255;
      assert dest[..op] == before + [255];
      assert dest[..op] + LenBytes(len) == before + LenBytes(len + 255);
    }
    dest[op] := len;
    op := op + 1;
    assert dest[..op] == dest[..op - 1] + [len];
  }

  ghost function Ones(k: nat): (r: Bytes)
    ensures |r| == k
  {
    seq(k, _ => 255)
  }

  lemma {:induction false} LenBytesOnes(n: nat)
    ensures LenBytes(n) == Ones(n / 255) + [n % 255]
    decreases n
  {
    if n >= 255 {
      LenBytesOnes(n - 255);
      assert (n - 255) / 255 == n / 255 - 1;
      assert [255] + Ones(n / 255 - 1) == Ones(n / 255);
      assert (n - 255) % 255 == n % 255;
    }
  }

  method Write32Ones(dest: array<Byte>, op: nat)
    requires op + 4 <= dest.Length
    modifies dest
    ensures forall i :: 0 <= i < dest.Length ==> dest[i] == if op <= i < op + 4 then 255 else old(dest[i])
  {
    dest[op], dest[op + 1], dest[op + 2], dest[op + 3] := 255, 255, 255, 255;
  }

  // The same bytes, stored four 255s at a time and running past the end.
  method WriteMatchLength(dest: array<Byte>, op0: nat, n: nat) returns (op: nat)
    requires op0 + n / 255 + 4 <= dest.Length
    modifies dest
    ensures op == op0 + |LenBytes(n)| && op + 3 <= dest.Length
    ensures dest[..op] == old(dest[..op0]) + LenBytes(n)
  {
    op := op0;
    var code := n;
    Write32Ones(dest, op);
    while code >= 4 * 255
      invariant op0 <= op && code + 255 * (op - op0) == n && op + 4 <= dest.Length
      invariant forall i :: 0 <= i < op0 ==> dest[i] == old(dest[i])
      invariant forall i :: op0 <= i < op + 4 ==> dest[i] == 255
    {
      op := op + 4;
      Write32Ones(dest, op);
      code := code - 4 * 255;
    }
    op := op + code / 255;
    assert op - op0 == n / 255 && code % 255 == n % 255;
    dest[op] := code % 255;
    op := op + 1;
    LenBytesOnes(n);
    assert dest[..op] == old(dest[..op0]) + (Ones(n / 255) + [n % 255]);
  }

  // What is in the output when a sequence has its literals but not its match.
  ghost function Head(literals: Bytes): Bytes {
    [16 * Nibble(|literals|)] + LenExt(|literals|) + literals
  }

  // A token with its high nibble, and the rest of the literal length.
  method EmitRun(dest: array<Byte>, op0: nat, run: nat) returns (op: nat)
    requires op0 + 1 + |LenExt(run)| <= dest.Length
    modifies dest
    ensures op == op0 + 1 + |LenExt(run)|
    ensures dest[..op] == old(dest[..op0]) + [16 * Nibble(run)] + LenExt(run)
  {
    hide LenExt, LenBytes;
    ExtSize(run);
    op := op0 + 1;
    ghost var before := dest[..op0];
    if run >= RUN_MASK {
      dest[op0] := RUN_MASK * 16;
      assert dest[..op] == before + [240];
      op := WriteLength(dest, op, run - RUN_MASK);
    } else {
      dest[op0] := run * 16;
      assert dest[..op] == before + [run * 16] + LenExt(run);
    }
  }

  method EmitLiterals(src: Bytes, dest: array<Byte>, op0: nat, anchor: nat, ip: nat, limited: bool)
    returns (op: nat, ok: bool)
    requires anchor <= ip && ip + MFLIMIT <= |src| && op0 <= dest.Length
    requires !limited ==> op0 + (ip - anchor) + (ip - anchor) / 255 + 9 <= dest.Length
    modifies dest
    ensures ok ==> op0 < op && op + 7 <= dest.Length
    ensures ok ==> dest[..op] == old(dest[..op0]) + Head(src[anchor..ip])
    ensures !ok <==> limited && op0 + 9 + (ip - anchor) + (ip - anchor) / 255 > dest.Length
  {
    hide Agree, LenExt, LenBytes;
    var litLength := ip - anchor;
    op := op0 + 1;
    if limited && op + litLength + (2 + 1 + LASTLITERALS) + litLength / 255 > dest.Length {
      return op, false;
    }
    ExtSize(litLength);
    op := EmitRun(dest, op0, litLength);
    ghost var before := dest[..];
    WildCopyIn(dest, op, src, anchor, op + litLength, 8);
    Appended(before, dest[..], op, op + litLength, src[anchor..ip]);
    op, ok := op + litLength, true;
    HeadIs(old(dest[..op0]), src[anchor..ip]);
  }

  lemma ExtSize(n: nat)
    ensures |LenExt(n)| <= n / 255 + 1
    ensures n < RUN_MASK ==> LenExt(n) == []
    ensures n >= RUN_MASK ==> LenExt(n) == LenBytes(n - RUN_MASK) && |LenExt(n)| == (n - RUN_MASK) / 255 + 1
  {
  }

  lemma HeadIs(pre: Bytes, literals: Bytes)
    ensures pre + [16 * Nibble(|literals|)] + LenExt(|literals|) + literals == pre + Head(literals)
  {
  }

  lemma Appended(before: Bytes, now: Bytes, lo: nat, hi: nat, piece: Bytes)
    requires lo <= hi <= |now| && |before| == |now|
    requires Agree(now, before, 0, lo) && now[lo..hi] == piece
    ensures now[..hi] == before[..lo] + piece
  {
    assert now[..hi] == now[..lo] + now[lo..hi];
    assert now[..lo] == before[..lo];
  }

  // The offset, the match length and the low nibble of the token.
  method EmitMatch(src: Bytes, dest: array<Byte>, token: nat, op0: nat, ip0: nat, m: nat, limited: bool)
    returns (op: nat, ip: nat, ok: bool)
    requires Candidate(src, m, ip0) && token < op0 && op0 + 2 <= dest.Length
    requires dest[token] % 16 == 0
    requires !limited ==> op0 + 6 + (|src| - ip0 + 240) / 255 <= dest.Length
    modifies dest
    ensures ip == MatchEnd(src, m, ip0)
    ensures !ok <==> limited && op0 + 8 + (ip - ip0 - MINMATCH + 240) / 255 > dest.Length
    ensures ok ==> ip0 + MINMATCH <= ip && ip + LASTLITERALS <= |src| && Matches(src, m, ip0, ip - ip0)
    ensures ok ==> ip + LASTLITERALS == |src| || src[ip] != src[m + (ip - ip0)]
    ensures ok ==> op0 < op <= dest.Length && (limited ==> op + 6 <= dest.Length)
    ensures ok ==> dest[..op] == WithMatch(old(dest[..op0]), token, ip0 - m, ip - ip0 - MINMATCH)
  {
    hide Matches, LenExt, LenBytes;
    var offset := ip0 - m;
    LittleEndian(offset);
    dest[op0], dest[op0 + 1] := offset % 256, offset / 256;
    op := op0 + 2;
    ghost var before := dest[..op];
    assert before == old(dest[..op0]) + [offset % 256, offset / 256];
    var code := Count(src, ip0 + MINMATCH, m + MINMATCH, |src| - LASTLITERALS);
    MatchesMore(src, m, ip0, MINMATCH, code);
    ip := ip0 + code + MINMATCH;
    if limited && op + (1 + LASTLITERALS) + (code + 240) / 255 > dest.Length {
      return op, ip, false;
    }
    op := EmitCode(dest, token, op, code);
    ok := true;
    WithMatchIs(old(dest[..op0]), before, token, offset, code);
  }

  method EmitCode(dest: array<Byte>, token: nat, op0: nat, code: nat) returns (op: nat)
    requires token < op0 && op0 + 4 + (code + 240) / 255 <= dest.Length
    requires dest[token] % 16 == 0
    modifies dest
    ensures op == op0 + (code + 240) / 255
    ensures dest[..op] == old(dest[..op0])[token := old(dest[token]) + Nibble(code)] + LenExt(code)
  {
    hide LenExt, LenBytes;
    op := op0;
    ghost var before := dest[..op];
    ExtSize(code);
    dest[token] := dest[token] + Nibble(code);
    assert dest[..op] == before[token := before[token] + Nibble(code)];
    if code >= ML_MASK {
      op := WriteMatchLength(dest, op, code - ML_MASK);
    } else {
      assert dest[..op] == dest[..op] + LenExt(code);
    }
  }

  lemma WithMatchIs(out: Bytes, before: Bytes, token: nat, offset: nat, code: nat)
    requires token < |out| && out[token] % 16 == 0 && 1 <= offset <= MAX_DISTANCE
    requires offset / 256 < 256 && before == out + [offset % 256, offset / 256]
    ensures before[token := before[token] + Nibble(code)] + LenExt(code) == WithMatch(out, token, offset, code)
  {
    hide LenExt;
    assert before[token := before[token] + Nibble(code)]
        == out[token := out[token] + Nibble(code)] + [offset % 256, offset / 256];
  }

  ghost function WithMatch(out: Bytes, token: nat, offset: nat, code: nat): Bytes
    requires token < |out| && out[token] % 16 == 0 && 1 <= offset <= MAX_DISTANCE
  {
    LittleEndian(offset);
    out[token := out[token] + Nibble(code)] + [offset % 256, offset / 256] + LenExt(code)
  }

  // ---------------------------------------------------------------- between and inside sequences

  // The output encodes a tiling of src[..anchor].
  ghost predicate Boundary(src: Bytes, out: Bytes, ss: seq<Sequence>, anchor: nat) {
    && Tiles(src, ss, anchor) && (forall s <- ss :: Encodable(s))
    && out == EncodeAll(ss) && EndRules(|src|, ss, anchor)
  }

  // After a token at index `token`, the literals src[anchor..ip] have been written.
  ghost predicate Opened(src: Bytes, out: Bytes, token: nat, ss: seq<Sequence>, anchor: nat, ip: nat) {
    && anchor <= ip <= |src| && token < |out|
    && Boundary(src, out[..token], ss, anchor) && out == out[..token] + Head(src[anchor..ip])
  }

  lemma OpenedBy(src: Bytes, pre: Bytes, out: Bytes, ss: seq<Sequence>, anchor: nat, ip: nat)
    requires anchor <= ip <= |src| && Boundary(src, pre, ss, anchor)
    requires out == pre + Head(src[anchor..ip])
    ensures Opened(src, out, |pre|, ss, anchor, ip) && out[|pre|] % 16 == 0
  {
    hide Boundary, LenExt;
    assert out[..|pre|] == pre;
  }

  lemma OpenedToken(src: Bytes, out: Bytes, token: nat, ss: seq<Sequence>, anchor: nat, ip: nat)
    requires Opened(src, out, token, ss, anchor, ip)
    ensures out[token] % 16 == 0 && out[token] == 16 * Nibble(ip - anchor)
  {
    hide Boundary, LenExt;
    assert out[token] == Head(src[anchor..ip])[0];
  }

  lemma NoLiterals(src: Bytes, out: Bytes, ss: seq<Sequence>, ip: nat)
    requires ip <= |src| && Boundary(src, out, ss, ip)
    ensures Opened(src, out + [0], |out|, ss, ip, ip)
  {
    hide Boundary;
    assert Head(src[ip..ip]) == [0];
    OpenedBy(src, out, out + [0], ss, ip, ip);
  }

  lemma SequenceBytes(pre: Bytes, literals: Bytes, offset: nat, code: nat)
    requires 1 <= offset <= MAX_DISTANCE
    ensures var out := pre + Head(literals);
      out[|pre|] % 16 == 0
      && WithMatch(out, |pre|, offset, code) == pre + EncodeSequence(Sequence(literals, offset, code + MINMATCH))
  {
    hide LenExt, Nibble;
    var out := pre + Head(literals);
    var high := 16 * Nibble(|literals|);
    assert out[|pre|] == high;
    var ext := LenExt(|literals|);
    assert out == pre + ([high] + ext + literals);
    assert out[|pre| := high + Nibble(code)] == pre + ([high + Nibble(code)] + ext + literals);
  }

  // Writing the match closes the sequence: the tiling has grown by it.
  lemma Close(src: Bytes, out: Bytes, token: nat, ss: seq<Sequence>, anchor: nat, ip0: nat, m: nat, ip: nat)
    requires Opened(src, out, token, ss, anchor, ip0) && Candidate(src, m, ip0)
    requires ip0 + MINMATCH <= ip && ip + LASTLITERALS <= |src| && Matches(src, m, ip0, ip - ip0)
    requires out[token] % 16 == 0
    ensures
      var s := Sequence(src[anchor..ip0], ip0 - m, ip - ip0);
      Boundary(src, WithMatch(out, token, ip0 - m, ip - ip0 - MINMATCH), ss + [s], ip)
  {
    hide LenExt, Periodic, EncodeSequence, WithMatch, Head;
    var s := Sequence(src[anchor..ip0], ip0 - m, ip - ip0);
    var more := ss + [s];
    SequenceBytes(out[..token], s.literals, s.offset, s.mlen - MINMATCH);
    assert more[..|more| - 1] == ss && more[|more| - 1] == s;
    assert EncodeAll(more) == EncodeAll(ss) + EncodeSequence(s);
  }

  // Room left by the size bound, when the output is as large as CompressBound.
  lemma RoomForLiterals(src: Bytes, out: Bytes, ss: seq<Sequence>, anchor: nat, ip: nat, capacity: nat)
    requires Boundary(src, out, ss, anchor) && anchor <= ip && ip + MFLIMIT <= |src|
    requires capacity >= |src| + |src| / 255 + 16
    ensures |out| + (ip - anchor) + (ip - anchor) / 255 + 9 <= capacity
  {
    hide Tiles, EncodeAll, EndRules, Encodable;
    EncodingSize(src, ss, anchor);
  }

  lemma RoomForMatch(src: Bytes, out: Bytes, token: nat, ss: seq<Sequence>, anchor: nat, ip: nat, capacity: nat)
    requires Opened(src, out, token, ss, anchor, ip) && ip + MFLIMIT <= |src|
    requires capacity >= |src| + |src| / 255 + 16
    ensures |out| + 6 + (|src| - ip + 240) / 255 <= capacity
  {
    hide Tiles, EncodeAll, EndRules, LenExt, Encodable;
    EncodingSize(src, ss, anchor);
    ExtSize(ip - anchor);
    assert |out| == token + 1 + |LenExt(ip - anchor)| + (ip - anchor);
  }

  // A maximal match covers everything known to match.
  lemma CoversReach(src: Bytes, m: nat, ip0: nat, ip: nat, reach: nat)
    requires ip0 <= ip && ip + LASTLITERALS <= |src| && reach + LASTLITERALS < |src| && ip0 <= reach
    requires Matches(src, m, ip0, reach - ip0)
    requires ip + LASTLITERALS == |src| || src[ip] != src[m + (ip - ip0)]
    ensures reach <= ip
  {
  }

  // The match, and every match found right after one.
  method Chain(src: Bytes, dest: array<Byte>, table: array<nat>, hash: nat --> nat, token0: nat, op0: nat,
               anchor0: nat, ip0: nat, m0: nat, limited: bool, checkDistance: bool,
               ghost ss0: seq<Sequence>, ghost reach0: nat, ghost u: Setup, ghost goal: seq<Sequence>)
    returns (op: nat, anchor: nat, ok: bool, atEnd: bool, ghost ss: seq<Sequence>)
    requires SetupOk(u, hash, table.Length) && u.src == src && u.checkDistance == checkDistance
    requires token0 < op0 && op0 + 2 <= dest.Length && anchor0 <= ip0 && HashOf(hash, table.Length, |src|)
    requires !checkDistance ==> |src| < LIMIT_64K
    requires !limited ==> dest.Length >= |src| + |src| / 255 + 16
    requires Opened(src, dest[..op0], token0, ss0, anchor0, ip0)
    requires Candidate(src, m0, ip0)
    requires ip0 + MINMATCH <= reach0 <= |src| - 8 && Matches(src, m0, ip0, reach0 - ip0)
    requires TableBelow(table[..], reach0 - 3)
    requires GoalOk(src, goal) && goal == ss0 + FromMatch(u, hash, table[..], anchor0, ip0, m0)
    modifies dest, table
    ensures !ok ==> limited && Overflows(src, goal, dest.Length)
    ensures ok ==> op <= dest.Length && anchor0 < anchor <= |src| && Boundary(src, dest[..op], ss, anchor)
    ensures ok && !atEnd ==> anchor + MFLIMIT <= |src| && TableBelow(table[..], anchor + 1)
    ensures ok && atEnd ==> goal == ss
    ensures ok && !atEnd ==> goal == ss + Parse(u, hash, table[..], anchor, anchor + 1)
  {
    hide Opened, Boundary, Matches, TableBelow, SetupOk, WithMatch, FromMatch, AfterMatch, Parse, Overflows, Hit, MatchEnd, HashOf, GoalOk, Candidate;
    SetupHash(u, hash, table.Length);
    var token: nat, ip: nat, m: nat := token0, ip0, m0;
    ghost var reach := reach0;
    op, anchor, ss := op0, anchor0, ss0;
    while true
      invariant token < op && op + 2 <= dest.Length && anchor0 <= anchor <= ip
      invariant Opened(src, dest[..op], token, ss, anchor, ip)
      invariant Candidate(src, m, ip)
      invariant ip + MINMATCH <= reach <= |src| - 8 && Matches(src, m, ip, reach - ip)
      invariant TableBelow(table[..], reach - 3)
      invariant goal == ss + FromMatch(u, hash, table[..], anchor, ip, m)
      decreases |src| - ip
    {
      ghost var before := dest[..op];
      ghost var end := MatchEnd(src, m, ip);
      ghost var s := Sequence(src[anchor..ip], ip - m, end - ip);
      FromMatchIs(u, hash, table[..], anchor, ip, m, ss, goal);
      AfterMatchIs(u, hash, table[..], end);
      OpenedToken(src, dest[..op], token, ss, anchor, ip);
      if !limited {
        RoomForMatch(src, dest[..op], token, ss, anchor, ip, dest.Length);
      }
      var next;
      op, next, ok := EmitMatch(src, dest, token, op, ip, m, limited);
      if !ok {
        MatchTooLong(src, before, token, ss, anchor, ip, s, goal, dest.Length);
        return op, anchor, false, false, ss;
      }
      Close(src, before, token, ss, anchor, ip, m, next);
      CoversReach(src, m, ip, next, reach);
      ss := ss + [s];
      anchor, ip := next, next;
      if ip >= |src| - MFLIMIT + 1 {
        assert ss + [] == ss;
        return op, anchor, true, true, ss;
      }
      Put(src, table, hash, ip - 2, reach - 3, ip);
      var found;
      found, m := TryPosition(src, table, hash, ip, checkDistance);
      if !found {
        return op, anchor, true, false, ss;
      }
      NextToken(src, dest, op, ip, limited, ss);
      token, op, reach := op, op + 1, ip + MINMATCH;
    }
  }

  method Put(src: Bytes, table: array<nat>, hash: nat --> nat, p: nat, ghost below: nat, ghost bound: nat)
    requires p + 8 <= |src| && HashOf(hash, table.Length, |src|)
    requires TableBelow(table[..], below) && below <= bound && p < bound
    modifies table
    ensures TableBelow(table[..], bound)
    ensures hash.requires(p) && hash(p) < table.Length && table[..] == old(table[..])[hash(p) := p]
  {
    table[hash(p)] := p;
  }

  // ---------------------------------------------------------------- the parse

  // The block of the parse is larger than the output.
  ghost predicate Overflows(src: Bytes, goal: seq<Sequence>, capacity: nat) {
    (forall s <- goal :: Encodable(s)) && Span(goal) <= |src| && |Block(src, goal)| > capacity
  }

  ghost predicate GoalOk(src: Bytes, goal: seq<Sequence>) {
    (forall x <- goal :: Encodable(x)) && Span(goal) + LASTLITERALS <= |src|
  }

  lemma SetupHash(u: Setup, hash: nat --> nat, slots: nat)
    requires SetupOk(u, hash, slots)
    ensures HashOf(hash, slots, |u.src|) && u.acceleration >= 1 && (!u.checkDistance ==> |u.src| < LIMIT_64K)
  {
  }

  // The parse from a match on, taken apart.
  lemma FromMatchIs(u: Setup, hash: nat --> nat, table: seq<nat>, anchor: nat, ip: nat, m: nat, ss: seq<Sequence>, goal: seq<Sequence>)
    requires SetupOk(u, hash, |table|) && anchor <= ip && Candidate(u.src, m, ip)
    requires goal == ss + FromMatch(u, hash, table, anchor, ip, m)
    ensures
      var end := MatchEnd(u.src, m, ip);
      var s := Sequence(u.src[anchor..ip], ip - m, end - ip);
      && goal == ss + [s] + AfterMatch(u, hash, table, end)
      && |ss| < |goal| && goal[..|ss|] == ss && goal[|ss|] == s
  {
    hide AfterMatch, SetupOk, MatchEnd;
  }

  lemma ParseIs(u: Setup, hash: nat --> nat, table: seq<nat>, anchor: nat, ip: nat, found: Found)
    requires SetupOk(u, hash, |table|) && anchor <= ip && anchor + LASTLITERALS <= |u.src|
    requires HashOf(hash, |table|, |u.src|)
    requires found == Search(u.src, table, hash, u.checkDistance, ip, 1, u.acceleration * 64)
    ensures found.NotFound? ==> Parse(u, hash, table, anchor, ip) == []
    ensures found.FoundAt? ==>
      && Candidate(u.src, found.m, found.ip)
      && var b := Back(u.src, anchor, found.ip, found.m);
      && Candidate(u.src, found.m - b, found.ip - b)
      && Parse(u, hash, table, anchor, ip) == FromMatch(u, hash, found.table, anchor, found.ip - b, found.m - b)
  {
    hide Search, FromMatch, Hit, Candidate, Back, HashOf;
    if found.FoundAt? {
      HitIsCandidate(u.src, found.m, found.ip, u.checkDistance);
      BackCandidate(u.src, anchor, found.ip, found.m);
    }
  }

  lemma AfterMatchIs(u: Setup, hash: nat --> nat, table: seq<nat>, end: nat)
    requires SetupOk(u, hash, |table|) && 2 <= end && end + LASTLITERALS <= |u.src|
    ensures end >= |u.src| - MFLIMIT + 1 ==> AfterMatch(u, hash, table, end) == []
    ensures end < |u.src| - MFLIMIT + 1 ==>
      && hash.requires(end - 2) && hash(end - 2) < |table| && hash.requires(end) && hash(end) < |table|
      && var put := table[hash(end - 2) := end - 2];
         var m, next := put[hash(end)], put[hash(end) := end];
         && (Hit(u.src, m, end, u.checkDistance) ==>
               Candidate(u.src, m, end) && AfterMatch(u, hash, table, end) == FromMatch(u, hash, next, end, end, m))
         && (!Hit(u.src, m, end, u.checkDistance) ==> AfterMatch(u, hash, table, end) == Parse(u, hash, next, end, end + 1))
  {
    hide Parse, FromMatch, Hit, Candidate;
    if end < |u.src| - MFLIMIT + 1 {
      var put := table[hash(end - 2) := end - 2];
      if Hit(u.src, put[hash(end)], end, u.checkDistance) {
        HitIsCandidate(u.src, put[hash(end)], end, u.checkDistance);
      }
    }
  }

  // The block holds at least one more sequence and six more bytes.
  lemma AtLeast(src: Bytes, ss: seq<Sequence>, s: Sequence, goal: seq<Sequence>)
    requires GoalOk(src, goal)
    requires |ss| < |goal| && goal[..|ss|] == ss && goal[|ss|] == s
    ensures (forall x <- ss :: Encodable(x)) && Encodable(s)
    ensures |Block(src, goal)| >= |EncodeAll(ss)| + |EncodeSequence(s)| + 6
  {
    hide EncodeSequence;
    assert forall x <- ss :: x in goal;
    assert s in goal;
    var a, b := ss + [s], goal[|ss| + 1..];
    assert goal == a + b;
    EncodeGrows(a, b);
    assert a[..|a| - 1] == ss && a[|a| - 1] == s;
  }

  lemma MatchTooLong(src: Bytes, out: Bytes, token: nat, ss: seq<Sequence>, anchor: nat, ip: nat, s: Sequence, goal: seq<Sequence>, capacity: nat)
    requires Opened(src, out, token, ss, anchor, ip) && s.literals == src[anchor..ip]
    requires GoalOk(src, goal)
    requires |ss| < |goal| && goal[..|ss|] == ss && goal[|ss|] == s && s.mlen >= MINMATCH
    requires |out| + 8 + (s.mlen - MINMATCH + 240) / 255 > capacity
    ensures Overflows(src, goal, capacity)
  {
    hide Tiles, EncodeAll, EndRules, LenExt;
    AtLeast(src, ss, s, goal);
    assert |out| == token + |Head(src[anchor..ip])|;
  }

  lemma LiteralsTooLong(src: Bytes, out: Bytes, ss: seq<Sequence>, anchor: nat, s: Sequence, goal: seq<Sequence>, capacity: nat)
    requires Boundary(src, out, ss, anchor)
    requires GoalOk(src, goal)
    requires |ss| < |goal| && goal[..|ss|] == ss && goal[|ss|] == s
    requires |out| + 9 + |s.literals| + |s.literals| / 255 > capacity
    ensures Overflows(src, goal, capacity)
  {
    hide Tiles, EncodeAll, EndRules, LenExt;
    AtLeast(src, ss, s, goal);
  }

  lemma LastTooLong(src: Bytes, out: Bytes, ss: seq<Sequence>, anchor: nat, capacity: nat)
    requires anchor <= |src| && Boundary(src, out, ss, anchor) && |out| + |EncodeLast(src[anchor..])| > capacity
    ensures Overflows(src, ss, capacity)
  {
    hide Tiles, EncodeAll, EndRules, EncodeLast;
    TilesSpan(src, ss, anchor);
  }

  // The token of a sequence without literals.
  method NextToken(src: Bytes, dest: array<Byte>, op: nat, ip: nat, limited: bool, ghost ss: seq<Sequence>)
    requires op <= dest.Length && (limited ==> op + 6 <= dest.Length)
    requires !limited ==> dest.Length >= |src| + |src| / 255 + 16
    requires ip + MFLIMIT <= |src| && Boundary(src, dest[..op], ss, ip)
    modifies dest
    ensures op + 3 <= dest.Length
    ensures Opened(src, dest[..op + 1], op, ss, ip, ip)
  {
    hide Opened, Boundary;
    if !limited {
      RoomForLiterals(src, dest[..op], ss, ip, ip, dest.Length);
    }
    ghost var before := dest[..op];
    dest[op] := 0;
    assert dest[..op + 1] == before + [0];
    NoLiterals(src, before, ss, ip);
  }

  method EmitLast(src: Bytes, dest: array<Byte>, op0: nat, anchor: nat, limited: bool, ghost ss: seq<Sequence>)
    returns (op: nat, ok: bool)
    requires op0 <= dest.Length && anchor <= |src|
    requires !limited ==> dest.Length >= |src| + |src| / 255 + 16
    requires Boundary(src, dest[..op0], ss, anchor)
    modifies dest
    ensures !ok <==> limited && op0 + |EncodeLast(src[anchor..])| > dest.Length
    ensures ok ==> op0 < op <= dest.Length
    ensures ok ==> dest[..op] == old(dest[..op0]) + EncodeLast(src[anchor..])
  {
    hide Boundary, Agree, LenExt, LenBytes;
    var lastRun := |src| - anchor;
    ExtSize(lastRun);
    if limited {
      if op0 + lastRun + 1 + (lastRun + 255 - RUN_MASK) / 255 > dest.Length {
        return op0, false;
      }
    } else {
      RoomForLast(src, dest[..op0], ss, anchor, dest.Length);
    }
    op := EmitRun(dest, op0, lastRun);
    ghost var before := dest[..];
    CopyIn(dest, op, src, anchor, lastRun);
    assert src[anchor..anchor + lastRun] == src[anchor..];
    Appended(before, dest[..], op, op + lastRun, src[anchor..]);
    op, ok := op + lastRun, true;
    LastIs(old(dest[..op0]), src[anchor..]);
  }

  lemma LastIs(pre: Bytes, literals: Bytes)
    ensures pre + [16 * Nibble(|literals|)] + LenExt(|literals|) + literals == pre + EncodeLast(literals)
  {
  }

  lemma RoomForLast(src: Bytes, out: Bytes, ss: seq<Sequence>, anchor: nat, capacity: nat)
    requires Boundary(src, out, ss, anchor) && anchor <= |src|
    requires capacity >= |src| + |src| / 255 + 16
    ensures |out| + 1 + |LenExt(|src| - anchor)| + (|src| - anchor) <= capacity
  {
    hide Tiles, EncodeAll, EndRules, Encodable, LenExt;
    EncodingSize(src, ss, anchor);
    ExtSize(|src| - anchor);
  }

  // ---------------------------------------------------------------- the compressor

  // A block that stands for `src`: a tiling that keeps the end rules, then the last literals.
  ghost predicate BlockOf(src: Bytes, block: Bytes, ss: seq<Sequence>, upto: nat) {
    && Tiles(src, ss, upto) && (forall s <- ss :: Encodable(s)) && EndRules(|src|, ss, upto)
    && block == EncodeAll(ss) + EncodeLast(src[upto..])
  }

  // Search and extend back.
  method NextMatch(src: Bytes, table: array<nat>, hash: nat --> nat, anchor: nat, ip: nat, acceleration: nat, checkDistance: bool,
                   ghost u: Setup, ghost ss: seq<Sequence>, ghost goal: seq<Sequence>)
    returns (found: bool, at: nat, m: nat, ghost reach: nat)
    requires |src| >= MIN_LENGTH && anchor <= ip <= |src| - MFLIMIT + 1 && anchor + LASTLITERALS <= |src|
    requires u == Setup(src, checkDistance, acceleration) && SetupOk(u, hash, table.Length) && TableBelow(table[..], ip)
    requires goal == ss + Parse(u, hash, table[..], anchor, ip)
    modifies table
    ensures !found ==> goal == ss
    ensures found ==> anchor <= at && Candidate(src, m, at)
    ensures found ==> at + MINMATCH <= reach <= |src| - 8 && Matches(src, m, at, reach - at) && TableBelow(table[..], reach - 3)
    ensures found ==> goal == ss + FromMatch(u, hash, table[..], anchor, at, m)
  {
    hide Matches, TableBelow, HashOf, Parse, Search, FromMatch, Back, SetupOk;
    SetupHash(u, hash, table.Length);
    ghost var was := table[..];
    found, at, m := FindMatch(src, table, hash, ip, acceleration, checkDistance);
    ParseIs(u, hash, was, anchor, ip, if found then FoundAt(at, m, table[..]) else NotFound(table[..]));
    reach := at + MINMATCH;
    if found {
      at, m := CatchUp(src, anchor, at, m);
    }
  }

  // Search, extend back, emit, until the input is too short for another match.
  method Sequences(src: Bytes, dest: array<Byte>, table: array<nat>, hash: nat --> nat,
                   limited: bool, checkDistance: bool, acceleration: nat, ghost goal: seq<Sequence>)
    returns (op: nat, anchor: nat, ok: bool, ghost ss: seq<Sequence>)
    requires |src| >= MIN_LENGTH && acceleration >= 1 && HashOf(hash, table.Length, |src|)
    requires !checkDistance ==> |src| < LIMIT_64K
    requires !limited ==> dest.Length >= |src| + |src| / 255 + 16
    requires table[..] == Empty(table.Length)
    requires GoalOk(src, goal) && goal == WholeParse(Setup(src, checkDistance, acceleration), hash, table.Length)
    modifies dest, table
    ensures !ok ==> limited && Overflows(src, goal, dest.Length)
    ensures ok ==> op <= dest.Length && anchor <= |src| && Boundary(src, dest[..op], ss, anchor) && ss == goal
  {
    hide Opened, Boundary, Matches, TableBelow, HashOf, Head, Candidate, Overflows, GoalOk, Parse, Search, FromMatch, Back, WholeParse, SetupOk, MatchEnd;
    op, anchor, ss, ok := 0, 0, [], true;
    ghost var u := Setup(src, checkDistance, acceleration);
    NothingYet(src, dest[..op]);
    EmptyBelow(table[..]);
    Put(src, table, hash, 0, 1, 1);
    WholeIs(u, hash, table.Length, goal);
    var ip := 1;
    while true
      invariant op <= dest.Length && anchor <= ip <= |src| - MFLIMIT + 1 && ip <= anchor + 1
      invariant Boundary(src, dest[..op], ss, anchor)
      invariant TableBelow(table[..], ip)
      invariant goal == ss + Parse(u, hash, table[..], anchor, ip)
      decreases |src| - anchor
    {
      ghost var reach;
      var found, at, m;
      found, at, m, reach := NextMatch(src, table, hash, anchor, ip, acceleration, checkDistance, u, ss, goal);
      if !found {
        return op, anchor, true, ss;
      }
      if !limited {
        RoomForLiterals(src, dest[..op], ss, anchor, at, dest.Length);
      }
      var token := op;
      ghost var before := dest[..op];
      op, ok := EmitLiterals(src, dest, op, anchor, at, limited);
      FromMatchIs(u, hash, table[..], anchor, at, m, ss, goal);
      if !ok {
        LiteralsTooLong(src, before, ss, anchor, goal[|ss|], goal, dest.Length);
        return op, anchor, false, ss;
      }
      OpenedBy(src, before, dest[..op], ss, anchor, at);
      var atEnd;
      op, anchor, ok, atEnd, ss := Chain(src, dest, table, hash, token, op, anchor, at, m, limited, checkDistance, ss, reach, u, goal);
      if !ok || atEnd {
        return;
      }
      ip := anchor + 1;
    }
  }

  lemma WholeIs(u: Setup, hash: nat --> nat, slots: nat, goal: seq<Sequence>)
    requires HashOf(hash, slots, |u.src|) && u.acceleration >= 1 && (!u.checkDistance ==> |u.src| < LIMIT_64K)
    requires |u.src| >= MIN_LENGTH && goal == WholeParse(u, hash, slots)
    ensures SetupOk(u, hash, slots) && hash.requires(0) && hash(0) < slots
    ensures goal == [] + Parse(u, hash, Empty(slots)[hash(0) := 0], 0, 1)
  {
    hide Parse;
    FirstHash(hash, slots, |u.src|);
  }

  lemma EmptyBelow(table: seq<nat>)
    requires table == Empty(|table|)
    ensures TableBelow(table, 1)
  {
  }

  lemma NothingYet(src: Bytes, out: Bytes)
    requires out == []
    ensures Boundary(src, out, [], 0)
  {
  }

  // Inputs that are refused: too long at all, or too long for a table of 16-bit positions.
  predicate TooLong(size: nat, checkDistance: bool) {
    size > MAX_INPUT_SIZE || (!checkDistance && size >= LIMIT_64K)
  }

  // `r` bytes of `out` are the block of the parse or, if the input is refused or that does not
  // fit, there are none.
  ghost predicate Compressed(u: Setup, hash: nat --> nat, slots: nat, capacity: nat, out: Bytes, r: nat)
    requires u.acceleration >= 1 && HashOf(hash, slots, |u.src|) && r <= |out|
  {
    if TooLong(|u.src|, u.checkDistance) then r == 0
    else
      var block := Block(u.src, WholeParse(u, hash, slots));
      if |block| > capacity then r == 0 else r == |block| && out[..r] == block
  }

  method CompressGeneric(src: Bytes, dest: array<Byte>, table: array<nat>, hash: nat --> nat,
                         limited: bool, checkDistance: bool, acceleration: nat)
    returns (r: nat, ghost ss: seq<Sequence>, ghost upto: nat)
    requires acceleration >= 1 && HashOf(hash, table.Length, |src|)
    requires !limited ==> dest.Length >= CompressBound(|src|)
    requires forall h :: 0 <= h < table.Length ==> table[h] == 0
    modifies dest, table
    ensures r <= dest.Length
    ensures Compressed(Setup(src, checkDistance, acceleration), hash, table.Length, dest.Length, dest[..], r)
    ensures r > 0 ==> BlockOf(src, dest[..r], ss, upto)
    ensures r == 0 ==> limited || TooLong(|src|, checkDistance)
    ensures TooLong(|src|, checkDistance) ==> r == 0
  {
    hide Boundary, HashOf, Tiles, EncodeAll, EncodeLast, WholeParse, GoalOk, Overflows;
    ss, upto := [], 0;
    if TooLong(|src|, checkDistance) {
      return 0, ss, upto;
    }
    ghost var u := Setup(src, checkDistance, acceleration);
    ghost var goal := WholeParse(u, hash, table.Length);
    var op, anchor, ok := 0, 0, true;
    NothingYet(src, dest[..op]);
    if |src| >= MIN_LENGTH {
      GoalFits(src, goal);
      assert table[..] == Empty(table.Length);
      op, anchor, ok, ss := Sequences(src, dest, table, hash, limited, checkDistance, acceleration, goal);
      if !ok {
        OverflowsIs(src, goal, dest.Length);
        return 0, ss, upto;
      }
    } else {
      ShortParse(u, hash, table.Length);
    }
    upto := anchor;
    ghost var before := dest[..op];
    op, ok := EmitLast(src, dest, op, anchor, limited, ss);
    if !ok {
      LastTooLong(src, before, ss, anchor, dest.Length);
      OverflowsIs(src, goal, dest.Length);
      return 0, ss, upto;
    }
    r := op;
    ToBlock(src, before, ss, anchor);
    BlockIs(src, before, ss, anchor);
    assert dest[..][..r] == dest[..r];
  }

  lemma GoalFits(src: Bytes, goal: seq<Sequence>)
    requires |src| >= MIN_LENGTH && (forall s <- goal :: Encodable(s)) && (goal != [] ==> Span(goal) + LASTLITERALS <= |src|)
    ensures GoalOk(src, goal)
  {
  }

  lemma OverflowsIs(src: Bytes, goal: seq<Sequence>, capacity: nat)
    requires Overflows(src, goal, capacity)
    ensures (forall s <- goal :: Encodable(s)) && Span(goal) <= |src| && |Block(src, goal)| > capacity
  {
  }

  lemma ShortParse(u: Setup, hash: nat --> nat, slots: nat)
    requires SetupOk(u, hash, slots) && |u.src| < MIN_LENGTH
    ensures WholeParse(u, hash, slots) == []
  {
  }

  lemma BlockIs(src: Bytes, out: Bytes, ss: seq<Sequence>, anchor: nat)
    requires anchor <= |src| && Boundary(src, out, ss, anchor)
    ensures (forall s <- ss :: Encodable(s)) && Span(ss) == anchor && Block(src, ss) == out + EncodeLast(src[anchor..])
  {
    TilesSpan(src, ss, anchor);
  }

  lemma ToBlock(src: Bytes, out: Bytes, ss: seq<Sequence>, anchor: nat)
    requires anchor <= |src| && Boundary(src, out, ss, anchor)
    ensures BlockOf(src, out + EncodeLast(src[anchor..]), ss, anchor)
  {
  }

  // The entry point: the mode and the table follow from the two sizes.
  method CompressFast(src: Bytes, dest: array<Byte>, slots: nat, hash: nat --> nat, acceleration: int)
    returns (r: nat, ghost ss: seq<Sequence>, ghost upto: nat)
    requires HashOf(hash, slots, |src|)
    modifies dest
    ensures r <= dest.Length
    ensures r > 0 ==> BlockOf(src, dest[..r], ss, upto)
    ensures |src| <= MAX_INPUT_SIZE && dest.Length >= CompressBound(|src|) ==> r > 0
    ensures |src| > MAX_INPUT_SIZE ==> r == 0
    ensures Compressed(Setup(src, |src| >= LIMIT_64K, Max(acceleration, 1)), hash, slots, dest.Length, dest[..], r)
  {
    hide HashOf, BlockOf, Compressed;
    var table := new nat[slots](_ => 0);
    var speed := if acceleration < 1 then 1 else acceleration;
    r, ss, upto := CompressGeneric(src, dest, table, hash, dest.Length < CompressBound(|src|), |src| >= LIMIT_64K, speed);
  }

  /** The block of 100 bytes "a": token, literal, offset 1, match length 94, five last literals. */
  lemma HundredBytes()
    ensures EncodeSequence(Sequence([0x61], 1, 94)) + EncodeLast([0x61, 0x61, 0x61, 0x61, 0x61])
         == [0x1F, 0x61, 1, 0, 75, 0x50, 0x61, 0x61, 0x61, 0x61, 0x61]
  {
    assert LenExt(90) == [75] && LenExt(1) == [] && LenExt(5) == [];
  }

  // Equal bytes, 13 or more: one literal, one match at distance 1, five last literals, for every
  // hash and every acceleration, and a block exactly when these fit.
  method CompressEqual(a: Byte, n: nat, dest: array<Byte>, slots: nat, hash: nat --> nat, acceleration: int) returns (r: nat)
    requires 13 <= n <= MAX_INPUT_SIZE && HashOf(hash, slots, n)
    modifies dest
    ensures r == (if 10 + (n + 230) / 255 <= dest.Length then 10 + (n + 230) / 255 else 0)
    ensures r > 0 ==> dest[..r] == EncodeSequence(Sequence([a], 1, n - 6)) + EncodeLast([a, a, a, a, a])
  {
    hide HashOf, BlockOf, EncodeSequence, EncodeLast;
    var src := seq(n, _ => a);
    ghost var ss, upto;
    r, ss, upto := CompressFast(src, dest, slots, hash, acceleration);
    ghost var u := Setup(src, n >= LIMIT_64K, Max(acceleration, 1));
    EqualBytes(u, hash, slots);
    EqualBlock(a, n, src);
  }

  lemma EqualBlock(a: Byte, n: nat, src: Bytes)
    requires n >= MIN_LENGTH && src == seq(n, _ => a)
    ensures
      var ss := [Sequence([a], 1, n - 6)];
      && (forall s <- ss :: Encodable(s)) && Span(ss) == n - 5
      && Block(src, ss) == EncodeSequence(ss[0]) + EncodeLast([a, a, a, a, a])
      && |Block(src, ss)| == 10 + (n + 230) / 255
  {
    hide LenExt;
    var ss := [Sequence([a], 1, n - 6)];
    assert ss[1..] == [] && ss[..0] == [];
    assert EncodeAll(ss) == EncodeAll([]) + EncodeSequence(ss[0]);
    assert src[n - 5..] == [a, a, a, a, a];
    assert |LenExt(1)| == 0 && |LenExt(5)| == 0;
  }

  // Compression followed by decompression gives the input back, for every input the compressor
  // accepts, every hash, every acceleration and every output large enough.
  method RoundTrip(src: Bytes, dest: array<Byte>, slots: nat, hash: nat --> nat, acceleration: int, back: array<Byte>)
    returns (size: nat, r: int)
    requires HashOf(hash, slots, |src|) && back.Length >= |src| && dest != back
    modifies dest, back
    ensures size > 0 ==> r == |src| && back[..r] == src
    ensures |src| <= MAX_INPUT_SIZE && dest.Length >= CompressBound(|src|) ==> size > 0
  {
    hide HashOf, Tiles, EncodeAll, EncodeLast, EndRules;
    r := 0;
    ghost var ss, upto;
    size, ss, upto := CompressFast(src, dest, slots, hash, acceleration);
    if size > 0 {
      r := DecodeBlock(src, ss, upto, dest[..size], back);
    }
  }
}
