/**
  * The parse of the fast LZ4 compressor as a function of the input alone: which positions the
  * search looks at, what the hash table holds by then, how far a match reaches both ways, and what
  * is tried after it.  The hash is an arbitrary function of the position.
  */
module Lz4Greedy {
  import opened Basics
  import opened ByteSeq
  import opened Lz4Format

  const MIN_LENGTH: nat := MFLIMIT + 1
  const LIMIT_64K: nat := 65536 + (MFLIMIT - 1)

  ghost predicate Matches(src: Bytes, m: nat, ip: nat, length: nat) {
    m < ip && ip + length <= |src| && Periodic(src, ip, ip + length, ip - m)
  }

  // A hash may read 8 bytes at a position and names a slot of the table.
  ghost predicate HashOf(hash: nat --> nat, slots: nat, size: nat) {
    forall p: nat :: p + 8 <= size ==> hash.requires(p) && hash(p) < slots
  }

  ghost predicate Candidate(src: Bytes, m: nat, ip: nat) {
    m < ip && ip + MFLIMIT <= |src| && ip <= m + MAX_DISTANCE && Matches(src, m, ip, MINMATCH)
  }

  // ---------------------------------------------------------------- the search

  // A match at `ip` with position `m`: near enough, if that is tested, and four equal bytes.
  ghost predicate Hit(src: Bytes, m: nat, ip: nat, checkDistance: bool) {
    m < ip && ip + MFLIMIT <= |src| && (checkDistance ==> ip <= m + MAX_DISTANCE) && Matches(src, m, ip, MINMATCH)
  }

  lemma HitIsCandidate(src: Bytes, m: nat, ip: nat, checkDistance: bool)
    requires Hit(src, m, ip, checkDistance) && (!checkDistance ==> |src| < LIMIT_64K)
    ensures Candidate(src, m, ip)
  {
    hide Matches;
  }

  datatype Found = NotFound(table: seq<nat>) | FoundAt(ip: nat, m: nat, table: seq<nat>)

  // From `fwd` on, in steps that grow by one after every 64 misses; 11 bytes before the end it
  // gives up.
  ghost function Search(src: Bytes, table: seq<nat>, hash: nat --> nat, checkDistance: bool, fwd: nat, step: nat, nb: nat): (r: Found)
    requires HashOf(hash, |table|, |src|)
    ensures |r.table| == |table| && (r.FoundAt? ==> fwd <= r.ip && Hit(src, r.m, r.ip, checkDistance))
    decreases |src| - fwd
  {
    if step == 0 || fwd + step > |src| - MFLIMIT + 1 then NotFound(table)
    else
      var m, after := table[hash(fwd)], table[hash(fwd) := fwd];
      if Hit(src, m, fwd, checkDistance) then FoundAt(fwd, m, after)
      else Search(src, after, hash, checkDistance, fwd + step, nb / 64, nb + 1)
  }

  // The positions it looks at while there is no match, told without the table.
  ghost function Visits(size: nat, fwd: nat, step: nat, nb: nat): (r: seq<nat>)
    ensures forall i :: 0 <= i < |r| ==> fwd <= r[i] && r[i] + MFLIMIT <= size
    decreases size - fwd
  {
    if step == 0 || fwd + step > size - MFLIMIT + 1 then [] else [fwd] + Visits(size, fwd + step, nb / 64, nb + 1)
  }

  // The table after the positions `ps` were entered.
  ghost function Entered(table: seq<nat>, hash: nat --> nat, ps: seq<nat>): (r: seq<nat>)
    requires forall i :: 0 <= i < |ps| ==> hash.requires(ps[i]) && hash(ps[i]) < |table|
    ensures |r| == |table|
    decreases |ps|
  {
    if ps == [] then table else Entered(table[hash(ps[0]) := ps[0]], hash, ps[1..])
  }

  ghost predicate Hashed(hash: nat --> nat, slots: nat, ps: seq<nat>) {
    forall i :: 0 <= i < |ps| ==> hash.requires(ps[i]) && hash(ps[i]) < slots
  }

  // What the slot of position `ps[k]` holds when the search comes to it.
  ghost function Held(table: seq<nat>, hash: nat --> nat, ps: seq<nat>, k: nat): nat
    requires k < |ps| && Hashed(hash, |table|, ps)
  {
    Entered(table, hash, ps[..k])[hash(ps[k])]
  }

  lemma HeldLater(table: seq<nat>, hash: nat --> nat, p: nat, ps: seq<nat>, k: nat)
    requires Hashed(hash, |table|, [p] + ps) && k < |ps|
    ensures Hashed(hash, |table|, ps) && hash.requires(p) && hash(p) < |table|
    ensures Held(table, hash, [p] + ps, k + 1) == Held(table[hash(p) := p], hash, ps, k)
  {
    assert ([p] + ps)[0] == p;
    forall i | 0 <= i < |ps|
      ensures hash.requires(ps[i]) && hash(ps[i]) < |table|
    {
      assert ([p] + ps)[i + 1] == ps[i];
    }
    var some := ([p] + ps)[..k + 1];
    assert some[0] == p && some[1..] == ps[..k];
  }

  // The search yields the first of those positions whose slot holds a match, or there is none.
  lemma {:induction false} FirstHit(src: Bytes, table: seq<nat>, hash: nat --> nat, checkDistance: bool, fwd: nat, step: nat, nb: nat)
    returns (k: nat)
    requires HashOf(hash, |table|, |src|)
    ensures
      var r, ps := Search(src, table, hash, checkDistance, fwd, step, nb), Visits(|src|, fwd, step, nb);
      && Hashed(hash, |table|, ps) && k <= |ps|
      && (forall i :: 0 <= i < k ==> !Hit(src, Held(table, hash, ps, i), ps[i], checkDistance))
      && (r.NotFound? ==> k == |ps|)
      && (r.FoundAt? ==> k < |ps| && r.ip == ps[k] && r.m == Held(table, hash, ps, k) && Hit(src, r.m, r.ip, checkDistance))
    decreases |src| - fwd
  {
    hide Hit, Held, HashOf, Hashed, Search, Visits;
    var ps := Visits(|src|, fwd, step, nb);
    VisitsHashed(hash, |table|, |src|, fwd, step, nb);
    VisitsIs(|src|, fwd, step, nb);
    SearchIs(src, table, hash, checkDistance, fwd, step, nb);
    k := 0;
    if ps != [] {
      HeldFirst(table, hash, ps);
      if !Hit(src, table[hash(fwd)], fwd, checkDistance) {
        var after, more := table[hash(fwd) := fwd], Visits(|src|, fwd + step, nb / 64, nb + 1);
        k := FirstHit(src, after, hash, checkDistance, fwd + step, nb / 64, nb + 1);
        if k < |more| {
          HeldLater(table, hash, fwd, more, k);
        }
        forall i | 0 <= i < k + 1
          ensures !Hit(src, Held(table, hash, ps, i), ps[i], checkDistance)
        {
          if i > 0 {
            HeldLater(table, hash, fwd, more, i - 1);
          }
        }
        k := k + 1;
      }
    }
  }

  lemma VisitsHashed(hash: nat --> nat, slots: nat, size: nat, fwd: nat, step: nat, nb: nat)
    requires HashOf(hash, slots, size)
    ensures Hashed(hash, slots, Visits(size, fwd, step, nb))
  {
  }

  lemma VisitsIs(size: nat, fwd: nat, step: nat, nb: nat)
    ensures Visits(size, fwd, step, nb)
         == if step == 0 || fwd + step > size - MFLIMIT + 1 then [] else [fwd] + Visits(size, fwd + step, nb / 64, nb + 1)
  {
  }

  lemma SearchIs(src: Bytes, table: seq<nat>, hash: nat --> nat, checkDistance: bool, fwd: nat, step: nat, nb: nat)
    requires HashOf(hash, |table|, |src|)
    ensures step == 0 || fwd + step > |src| - MFLIMIT + 1 ==>
              Search(src, table, hash, checkDistance, fwd, step, nb) == NotFound(table)
    ensures step > 0 && fwd + step <= |src| - MFLIMIT + 1 ==>
      && hash.requires(fwd) && hash(fwd) < |table|
      && var m, after := table[hash(fwd)], table[hash(fwd) := fwd];
         Search(src, table, hash, checkDistance, fwd, step, nb)
         == if Hit(src, m, fwd, checkDistance) then FoundAt(fwd, m, after)
            else Search(src, after, hash, checkDistance, fwd + step, nb / 64, nb + 1)
  {
    hide Hit;
  }

  lemma HeldFirst(table: seq<nat>, hash: nat --> nat, ps: seq<nat>)
    requires ps != [] && Hashed(hash, |table|, ps)
    ensures Held(table, hash, ps, 0) == table[hash(ps[0])]
  {
    assert ps[..0] == [];
  }

  // ---------------------------------------------------------------- the reach of a match

  // The longest common run before `limit`.
  ghost function Common(src: Bytes, m: nat, ip: nat, limit: nat): (c: nat)
    requires m < ip && limit <= |src|
    ensures ip <= limit ==> ip + c <= limit
    decreases limit - ip
  {
    if ip >= limit || src[m] != src[ip] then 0 else 1 + Common(src, m + 1, ip + 1, limit)
  }

  lemma {:induction false} CommonIs(src: Bytes, m: nat, ip: nat, limit: nat, c: nat)
    requires m < ip && ip + c <= limit <= |src| && Matches(src, m, ip, c)
    requires ip + c == limit || src[m + c] != src[ip + c]
    ensures Common(src, m, ip, limit) == c
    decreases c
  {
    if c > 0 {
      assert src[m] == src[ip];
      CommonIs(src, m + 1, ip + 1, limit, c - 1);
    }
  }

  lemma {:induction false} CommonMatches(src: Bytes, m: nat, ip: nat, limit: nat)
    requires m < ip <= limit <= |src|
    ensures Matches(src, m, ip, Common(src, m, ip, limit))
    decreases limit - ip
  {
    if ip < limit && src[m] == src[ip] {
      CommonMatches(src, m + 1, ip + 1, limit);
    }
  }

  // Equal bytes before both positions.
  ghost function Back(src: Bytes, anchor: nat, ip: nat, m: nat): (b: nat)
    requires m < ip <= |src|
    ensures b <= m && (anchor <= ip ==> anchor + b <= ip)
    decreases m
  {
    if ip > anchor && m > 0 && src[ip - 1] == src[m - 1] then 1 + Back(src, anchor, ip - 1, m - 1) else 0
  }

  lemma {:induction false} BackMatches(src: Bytes, anchor: nat, ip: nat, m: nat, length: nat)
    requires Matches(src, m, ip, length)
    ensures var b := Back(src, anchor, ip, m); Matches(src, m - b, ip - b, b + length)
    decreases m
  {
    if ip > anchor && m > 0 && src[ip - 1] == src[m - 1] {
      BackMatches(src, anchor, ip - 1, m - 1, length + 1);
    }
  }

  lemma BackCandidate(src: Bytes, anchor: nat, ip: nat, m: nat)
    requires Candidate(src, m, ip)
    ensures var b := Back(src, anchor, ip, m); Candidate(src, m - b, ip - b)
  {
    BackMatches(src, anchor, ip, m, MINMATCH);
  }

  // Where the match of `m` and `ip` ends.
  ghost function MatchEnd(src: Bytes, m: nat, ip: nat): (e: nat)
    requires Candidate(src, m, ip)
    ensures ip + MINMATCH <= e && e + LASTLITERALS <= |src|
  {
    ip + MINMATCH + Common(src, m + MINMATCH, ip + MINMATCH, |src| - LASTLITERALS)
  }

  // ---------------------------------------------------------------- the parse

  // What stays the same throughout.
  datatype Setup = Setup(src: Bytes, checkDistance: bool, acceleration: nat)

  ghost predicate SetupOk(u: Setup, hash: nat --> nat, slots: nat) {
    && HashOf(hash, slots, |u.src|) && u.acceleration >= 1 && (!u.checkDistance ==> |u.src| < LIMIT_64K)
  }

  // Literals from `anchor` on and the match at `ip`, then the rest.
  ghost function FromMatch(u: Setup, hash: nat --> nat, table: seq<nat>, anchor: nat, ip: nat, m: nat): (r: seq<Sequence>)
    requires SetupOk(u, hash, |table|) && anchor <= ip && Candidate(u.src, m, ip)
    ensures r != [] && r[0] == Sequence(u.src[anchor..ip], ip - m, MatchEnd(u.src, m, ip) - ip)
    ensures (forall s <- r :: Encodable(s)) && anchor + Span(r) + LASTLITERALS <= |u.src|
    decreases |u.src| - anchor, 1
  {
    var end := MatchEnd(u.src, m, ip);
    [Sequence(u.src[anchor..ip], ip - m, end - ip)] + AfterMatch(u, hash, table, end)
  }

  // After a match: at the end nothing, a match found at once, or a new search.
  ghost function AfterMatch(u: Setup, hash: nat --> nat, table: seq<nat>, end: nat): (r: seq<Sequence>)
    requires SetupOk(u, hash, |table|) && 2 <= end && end + LASTLITERALS <= |u.src|
    ensures (forall s <- r :: Encodable(s)) && end + Span(r) + LASTLITERALS <= |u.src|
    decreases |u.src| - end, 3
  {
    if end >= |u.src| - MFLIMIT + 1 then []
    else
      var put := table[hash(end - 2) := end - 2];
      var m, next := put[hash(end)], put[hash(end) := end];
      if Hit(u.src, m, end, u.checkDistance) then
        HitIsCandidate(u.src, m, end, u.checkDistance);
        FromMatch(u, hash, next, end, end, m)
      else Parse(u, hash, next, end, end + 1)
  }

  ghost function Parse(u: Setup, hash: nat --> nat, table: seq<nat>, anchor: nat, ip: nat): (r: seq<Sequence>)
    requires SetupOk(u, hash, |table|) && anchor <= ip && anchor + LASTLITERALS <= |u.src|
    ensures (forall s <- r :: Encodable(s)) && anchor + Span(r) + LASTLITERALS <= |u.src|
    decreases |u.src| - anchor, 2
  {
    match Search(u.src, table, hash, u.checkDistance, ip, 1, u.acceleration * 64)
    case NotFound(_) => []
    case FoundAt(at, m, next) =>
      HitIsCandidate(u.src, m, at, u.checkDistance);
      BackCandidate(u.src, anchor, at, m);
      var b := Back(u.src, anchor, at, m);
      FromMatch(u, hash, next, anchor, at - b, m - b)
  }

  // The whole of an input: the table is empty but for position 0.
  ghost function WholeParse(u: Setup, hash: nat --> nat, slots: nat): (r: seq<Sequence>)
    requires SetupOk(u, hash, slots)
    ensures (forall s <- r :: Encodable(s)) && Span(r) <= |u.src| && (r != [] ==> Span(r) + LASTLITERALS <= |u.src|)
  {
    if |u.src| < MIN_LENGTH then []
    else Parse(u, hash, Empty(slots)[hash(0) := 0], 0, 1)
  }

  ghost function Empty(slots: nat): (r: seq<nat>)
    ensures |r| == slots
  {
    seq(slots, _ => 0)
  }

  // The input that sequences stand for.
  ghost function Span(ss: seq<Sequence>): nat {
    if ss == [] then 0 else |ss[0].literals| + ss[0].mlen + Span(ss[1..])
  }

  // The block they make with the last literals.
  ghost function Block(src: Bytes, ss: seq<Sequence>): Bytes
    requires (forall s <- ss :: Encodable(s)) && Span(ss) <= |src|
  {
    EncodeAll(ss) + EncodeLast(src[Span(ss)..])
  }

  lemma {:induction false} SpanAppend(a: seq<Sequence>, b: seq<Sequence>)
    ensures Span(a + b) == Span(a) + Span(b)
    decreases |a|
  {
    if a == [] {
      assert a + b == b;
    } else {
      assert (a + b)[1..] == a[1..] + b;
      SpanAppend(a[1..], b);
    }
  }

  lemma {:induction false} TilesSpan(data: Bytes, ss: seq<Sequence>, upto: nat)
    requires Tiles(data, ss, upto)
    ensures upto == Span(ss)
    decreases |ss|
  {
    hide Periodic;
    if ss != [] {
      var init, s := ss[..|ss| - 1], ss[|ss| - 1];
      TilesSpan(data, init, upto - s.mlen - |s.literals|);
      SpanAppend(init, [s]);
      assert ss == init + [s];
    }
  }

  // More sequences only add bytes.
  lemma {:induction false} EncodeGrows(a: seq<Sequence>, b: seq<Sequence>)
    requires forall s <- a + b :: Encodable(s)
    ensures (forall s <- a :: Encodable(s)) && |EncodeAll(a)| <= |EncodeAll(a + b)|
    decreases |b|
  {
    assert forall s <- a :: s in a + b;
    if b == [] {
      assert a + b == a;
    } else {
      var c, s := b[..|b| - 1], b[|b| - 1];
      assert (a + b)[..|a + b| - 1] == a + c && (a + b)[|a + b| - 1] == s;
      EncodeGrows(a, c);
    }
  }

  // ---------------------------------------------------------------- equal bytes

  // Equal bytes are one literal and one match, whatever the hash.
  lemma EqualBytes(u: Setup, hash: nat --> nat, slots: nat)
    requires SetupOk(u, hash, slots) && |u.src| >= MIN_LENGTH && forall i :: 0 <= i < |u.src| ==> u.src[i] == u.src[0]
    ensures WholeParse(u, hash, slots) == [Sequence([u.src[0]], 1, |u.src| - 6)]
  {
    hide HashOf;
    var src, n := u.src, |u.src|;
    FirstHash(hash, slots, n);
    var table := Empty(slots)[hash(0) := 0];
    assert Matches(src, 0, 1, MINMATCH) && Hit(src, 0, 1, u.checkDistance);
    assert table[hash(1)] == 0;
    var next := table[hash(1) := 1];
    assert Search(src, table, hash, u.checkDistance, 1, 1, u.acceleration * 64) == FoundAt(1, 0, next);
    assert Back(src, 0, 1, 0) == 0;
    assert Matches(src, MINMATCH, 1 + MINMATCH, n - 10);
    CommonIs(src, MINMATCH, 1 + MINMATCH, n - LASTLITERALS, n - 10);
    assert MatchEnd(src, 0, 1) == n - LASTLITERALS;
    assert AfterMatch(u, hash, next, n - LASTLITERALS) == [];
    assert src[0..1] == [src[0]];
    assert Parse(u, hash, table, 0, 1) == FromMatch(u, hash, next, 0, 1, 0);
    assert FromMatch(u, hash, next, 0, 1, 0) == [Sequence([src[0]], 1, n - 6)] + [];
  }

  lemma FirstHash(hash: nat --> nat, slots: nat, size: nat)
    requires HashOf(hash, slots, size) && size >= MIN_LENGTH
    ensures hash.requires(0) && hash(0) < slots && hash.requires(1) && hash(1) < slots
  {
  }
}
