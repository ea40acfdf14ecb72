/**
  * The optimal parser of the high-compression LZ4 encoder, without a dictionary: a table of the
  * cheapest way to reach each position, a reverse traversal that turns it into a forward path, and
  * the encoding of that path.  The match finder is a parameter of which only this is known: a match
  * it returns is genuine.  Whatever it finds, the block encodes a tiling of the input, and each
  * segment is as small as any made of literals and of the matches found in it.
  */
module Lz4Optimal {
  import opened Basics
  import opened ByteSeq
  import opened Lz4Format
  import opened Lz4Copy
  import opened Lz4Decode
  import opened Lz4Encode
  import opened Lz4Greedy
  import opened Lz4Prices

  const OPT_NUM: nat := 4096
  const TRAILING_LITERALS: nat := 3

  // HCfavor_e: compression ratio or decompression speed.
  type Favor = n: nat | n <= 1

  // ---------------------------------------------------------------- genuine matches

  // A step of the parser that the format can express at position `at`.
  ghost predicate Genuine(src: Bytes, at: nat, mlen: nat, off: nat) {
    && 1 <= off <= at && off <= MAX_DISTANCE && mlen >= MINMATCH
    && at + MFLIMIT <= |src| && at + mlen + LASTLITERALS <= |src|
    && Matches(src, at - off, at, mlen)
  }

  lemma Shorter(src: Bytes, at: nat, mlen: nat, off: nat, less: nat)
    requires Genuine(src, at, mlen, off) && MINMATCH <= less <= mlen
    ensures Genuine(src, at, less, off)
  {
  }

  // A finder: position, minimum length and the number of the call.
  type Finder = (nat, nat, nat) -> Match

  ghost predicate Honest(src: Bytes, find: Finder) {
    forall at: nat, min: nat, call: nat :: at + MFLIMIT <= |src| ==>
      var m := find(at, min, call);
      m.len == 0 || Genuine(src, at, m.len, m.off)
  }

  // ---------------------------------------------------------------- the table

  // The entry of position `pos`: a literal, or a genuine match that ends there and starts inside
  // the segment.
  ghost predicate EntryOk(src: Bytes, base: nat, e: Entry, pos: nat) {
    e.mlen == 1 || (MINMATCH <= e.mlen <= pos && Genuine(src, base + pos - e.mlen, e.mlen, e.off))
  }

  ghost predicate TableOk(src: Bytes, base: nat, t: seq<Entry>, upto: nat) {
    && upto < |t| && t[0].mlen == 1
    && forall p :: 0 <= p <= upto ==> EntryOk(src, base, t[p], p)
  }

  lemma TableSet(src: Bytes, base: nat, t: seq<Entry>, upto: nat, pos: nat, e: Entry)
    requires TableOk(src, base, t, upto) && 1 <= pos <= upto + 1 && pos < |t|
    requires EntryOk(src, base, e, pos)
    ensures TableOk(src, base, t[pos := e], if pos <= upto then upto else pos)
  {
  }

  method SetEntry(src: Bytes, ghost base: nat, opt: array<Entry>, ghost upto: nat, pos: nat, e: Entry)
    requires upto < opt.Length && TableOk(src, base, opt[..], upto) && 1 <= pos <= upto + 1 && pos < opt.Length
    requires EntryOk(src, base, e, pos)
    modifies opt
    ensures TableOk(src, base, opt[..], if pos <= upto then upto else pos)
    ensures opt[..] == old(opt[..])[pos := e]
  {
    hide EntryOk;
    ghost var before := opt[..];
    opt[pos] := e;
    assert opt[..] == before[pos := e];
    TableSet(src, base, before, upto, pos, e);
  }

  lemma LiteralOk(src: Bytes, base: nat, pos: nat, price: int, litlen: nat)
    ensures EntryOk(src, base, Entry(price, 0, 1, litlen), pos)
  {
  }

  lemma MatchOk(src: Bytes, base: nat, cur: nat, m: Match, ml: nat, price: int, litlen: nat)
    requires Genuine(src, base + cur, m.len, m.off) && MINMATCH <= ml <= m.len
    ensures EntryOk(src, base, Entry(price, m.off, ml, litlen), cur + ml)
  {
    Shorter(src, base + cur, m.len, m.off, ml);
  }

  // Three literals after the last match.
  method Trailing(src: Bytes, ghost base: nat, opt: array<Entry>, ghost upto: nat, last: nat)
    requires opt.Length == OPT_NUM + TRAILING_LITERALS && last < OPT_NUM
    requires last <= upto <= last + 3 && TableOk(src, base, opt[..], upto)
    modifies opt
    ensures TableOk(src, base, opt[..], last + 3)
    ensures forall p :: 0 <= p <= last ==> opt[p] == old(opt[p])
    ensures forall p :: last < p <= last + 3 ==> opt[p] == Entry(opt[last].price + (p - last), 0, 1, p - last)
  {
    hide EntryOk, TableOk;
    var add := 1;
    ghost var reach := upto;
    while add <= TRAILING_LITERALS
      invariant 1 <= add <= 4 && reach == Max(upto, last + add - 1)
      invariant TableOk(src, base, opt[..], reach)
      invariant forall p :: 0 <= p <= last ==> opt[p] == old(opt[p])
      invariant forall p :: last < p < last + add ==> opt[p] == Entry(opt[last].price + (p - last), 0, 1, p - last)
    {
      var e := Entry(opt[last].price + LiteralsPrice(add), 0, 1, add);
      LiteralOk(src, base, last + add, e.price, e.litlen);
      SetEntry(src, base, opt, reach, last + add, e);
      reach := Max(reach, last + add);
      add := add + 1;
    }
  }

  // The table after the first match of a segment.
  method FirstMatch(src: Bytes, base: nat, opt: array<Entry>, llen: nat, m: Match)
    requires opt.Length == OPT_NUM + TRAILING_LITERALS && m.len < OPT_NUM
    requires Genuine(src, base, m.len, m.off)
    modifies opt
    ensures TableOk(src, base, opt[..], m.len + 3)
    ensures Priced(opt[..], llen, map[0 := m], 1, m.len)
  {
    hide EntryOk, Genuine, Priced, LiteralsPrice, SequencePrice;
    assert m.len >= MINMATCH by { AtLeastFour(src, base, m); }
    var pos := 0;
    while pos < MINMATCH
      invariant pos <= MINMATCH
      invariant forall p :: 0 <= p < pos ==> opt[p].mlen == 1 && EntryOk(src, base, opt[p], p)
      invariant forall p :: 0 <= p < pos ==> opt[p] == Entry(LiteralsPrice(llen + p), 0, 1, llen + p)
    {
      opt[pos] := Entry(LiteralsPrice(llen + pos), 0, 1, llen + pos);
      LiteralOk(src, base, pos, opt[pos].price, opt[pos].litlen);
      pos := pos + 1;
    }
    assert TableOk(src, base, opt[..], 3);
    FirstLengths(src, base, opt, llen, m);
    Trailing(src, base, opt, m.len, m.len);
    FirstPriced(opt[..], llen, m);
  }

  lemma AtLeastFour(src: Bytes, at: nat, m: Match)
    requires Genuine(src, at, m.len, m.off)
    ensures m.len >= MINMATCH && at + m.len + LASTLITERALS <= |src| && at + MFLIMIT <= |src|
  {
  }

  method FirstLengths(src: Bytes, base: nat, opt: array<Entry>, llen: nat, m: Match)
    requires opt.Length == OPT_NUM + TRAILING_LITERALS && MINMATCH <= m.len < OPT_NUM
    requires Genuine(src, base, m.len, m.off) && TableOk(src, base, opt[..], 3)
    modifies opt
    ensures TableOk(src, base, opt[..], m.len)
    ensures forall p :: 0 <= p < MINMATCH ==> opt[p] == old(opt[p])
    ensures forall p :: MINMATCH <= p <= m.len ==> opt[p] == Entry(SequencePrice(llen, p), m.off, p, llen)
  {
    hide EntryOk, Genuine, TableOk, SequencePrice;
    var mlen := MINMATCH;
    while mlen <= m.len
      invariant MINMATCH <= mlen <= m.len + 1
      invariant TableOk(src, base, opt[..], mlen - 1)
      invariant forall p :: 0 <= p < MINMATCH ==> opt[p] == old(opt[p])
      invariant forall p :: MINMATCH <= p < mlen ==> opt[p] == Entry(SequencePrice(llen, p), m.off, p, llen)
    {
      var e := Entry(SequencePrice(llen, mlen), m.off, mlen, llen);
      MatchOk(src, base, 0, m, mlen, e.price, llen);
      SetEntry(src, base, opt, mlen - 1, mlen, e);
      mlen := mlen + 1;
    }
  }

  // Cheaper literals before a new match at `cur`: there never are any.
  method BeforeMatch(src: Bytes, ghost base: nat, opt: array<Entry>, ghost llen: nat, ghost offers: map<nat, Match>, cur: nat, ghost last: nat)
    requires last + 3 < opt.Length && 1 <= cur < last && TableOk(src, base, opt[..], last + 3)
    requires Priced(opt[..], llen, offers, cur, last)
    modifies opt
    ensures opt[..] == old(opt[..])
  {
    hide EntryOk, TableOk, Priced, LiteralsPrice;
    var baseLitlen := opt[cur].litlen;
    var litlen := 1;
    while litlen < MINMATCH
      invariant 1 <= litlen <= MINMATCH
      invariant opt[..] == old(opt[..])
    {
      ghost var t := opt[..];
      var price := opt[cur].price - LiteralsPrice(baseLitlen) + LiteralsPrice(baseLitlen + litlen);
      var pos := cur + litlen;
      if price < opt[pos].price {
        opt[pos] := Entry(price, 0, 1, baseLitlen + litlen);
      }
      NoCheaperLiterals(t, llen, offers, cur, last, litlen);
      litlen := litlen + 1;
    }
  }

  // The price of `ml` bytes of a match at `cur`, and the literals before it.
  method PriceOf(opt: array<Entry>, cur: nat, ml: nat) returns (price: int, ll: nat)
    requires cur < opt.Length
    ensures price == OfferPrice(opt[..], cur, ml)
  {
    if opt[cur].mlen == 1 {
      ll := opt[cur].litlen;
      price := (if cur > ll then opt[cur - ll].price else 0) + SequencePrice(ll, ml);
    } else {
      ll, price := 0, opt[cur].price + SequencePrice(0, ml);
    }
  }

  // The lengths of the match below `below` have been offered.
  ghost predicate OfferedTo(t: seq<Entry>, u: seq<Entry>, c: nat, m: Match, last: nat, fav: nat, below: nat)
    requires last + 3 < |t| && c < |t|
  {
    && |u| == |t|
    && (forall p :: 0 <= p < |t| && !(p < below && Taken(t, c, m, last, fav, p)) ==> u[p] == t[p])
    && (forall p :: 0 <= p < |t| && p < below && Taken(t, c, m, last, fav, p) ==>
          u[p].price == Offer(t, c, p) && u[p].mlen == p - c && u[p].off == m.off)
  }

  // Every length of a new match at `cur`; `reach` is how far the table is filled.
  method MatchLengths(src: Bytes, ghost base: nat, opt: array<Entry>, last0: nat, cur: nat, m: Match, favorDecSpeed: Favor,
                      ghost llen: nat, ghost offers: map<nat, Match>)
    returns (last: nat, ghost reach: nat)
    requires opt.Length == OPT_NUM + TRAILING_LITERALS && 1 <= cur < last0 < OPT_NUM && cur + m.len < OPT_NUM
    requires Genuine(src, base + cur, m.len, m.off) && m.len >= MINMATCH
    requires TableOk(src, base, opt[..], last0 + 3) && Priced(opt[..], llen, offers, cur, last0)
    modifies opt
    ensures last == last0 || (last0 < last == cur + m.len)
    ensures last <= reach <= last + 3 && TableOk(src, base, opt[..], reach)
    ensures last == if cur + m.len > last0 && Taken(old(opt[..]), cur, m, last0, favorDecSpeed, cur + m.len) then cur + m.len else last0
    ensures OfferedTo(old(opt[..]), opt[..], cur, m, last0, favorDecSpeed, cur + m.len + 1)
  {
    hide EntryOk, TableOk, Genuine, Priced, OfferPrice, OfferedTo, Taken, Offer;
    ghost var t := opt[..];
    last, reach := last0, last0 + 3;
    var ml := MINMATCH;
    NothingOffered(t, cur, m, last0, favorDecSpeed);
    while ml <= m.len
      invariant MINMATCH <= ml <= m.len + 1
      invariant reach == Max(last0 + 3, cur + ml - 1) && TableOk(src, base, opt[..], reach)
      invariant ml <= m.len ==> last == last0
      invariant ml > m.len ==> (last == last0 && reach == last0 + 3) || (last0 < last == cur + m.len)
      invariant ml > m.len ==> last == if cur + m.len > last0 && Taken(t, cur, m, last0, favorDecSpeed, cur + m.len) then cur + m.len else last0
      invariant OfferedTo(t, opt[..], cur, m, last0, favorDecSpeed, cur + ml)
    {
      var pos := cur + ml;
      ghost var u := opt[..];
      var price, ll := PriceOf(opt, cur, ml);
      SameOffer(t, u, cur, m, last0, favorDecSpeed, ml, llen, offers);
      TakenIs(t, u, cur, m, last0, favorDecSpeed, ml);
      if pos > last + TRAILING_LITERALS || price <= opt[pos].price - favorDecSpeed {
        if ml == m.len && last < pos {
          last := pos;
        }
        MatchOk(src, base, cur, m, ml, price, ll);
        SetEntry(src, base, opt, reach, pos, Entry(price, m.off, ml, ll));
        reach := Max(reach, pos);
      }
      OfferedNext(t, u, opt[..], cur, m, last0, favorDecSpeed, ml);
      ml := ml + 1;
    }
  }

  lemma NothingOffered(t: seq<Entry>, c: nat, m: Match, last: nat, fav: nat)
    requires last + 3 < |t| && c < |t|
    ensures OfferedTo(t, t, c, m, last, fav, c + MINMATCH)
  {
    hide Offer;
  }

  lemma SameOffer(t: seq<Entry>, u: seq<Entry>, c: nat, m: Match, last: nat, fav: nat, ml: nat, llen: nat, offers: map<nat, Match>)
    requires last + 3 < |t| && 1 <= c < last && OfferedTo(t, u, c, m, last, fav, c + ml) && Priced(t, llen, offers, c, last)
    ensures OfferPrice(u, c, ml) == Offer(t, c, c + ml)
  {
    hide Priced, Ext;
    OfferIs(t, llen, offers, c, last, ml);
    assert u[c] == t[c];
  }

  lemma TakenIs(t: seq<Entry>, u: seq<Entry>, c: nat, m: Match, last: nat, fav: nat, ml: nat)
    requires last + 3 < |t| && c < |t| && MINMATCH <= ml <= m.len && c + ml < |t| && OfferedTo(t, u, c, m, last, fav, c + ml)
    ensures u[c + ml] == t[c + ml]
    ensures Taken(t, c, m, last, fav, c + ml) <==> c + ml > last + 3 || Offer(t, c, c + ml) <= t[c + ml].price - fav
  {
    hide Offer;
  }

  lemma OfferedNext(t: seq<Entry>, u: seq<Entry>, v: seq<Entry>, c: nat, m: Match, last: nat, fav: nat, ml: nat)
    requires last + 3 < |t| && c < |t| && MINMATCH <= ml <= m.len && c + ml < |t| && OfferedTo(t, u, c, m, last, fav, c + ml)
    requires |v| == |u|
    requires if Taken(t, c, m, last, fav, c + ml)
      then v == u[c + ml := v[c + ml]] && v[c + ml].price == Offer(t, c, c + ml) && v[c + ml].mlen == ml && v[c + ml].off == m.off
      else v == u
    ensures OfferedTo(t, v, c, m, last, fav, c + ml + 1)
  {
    hide Offer;
  }

  // With the literals after it, the whole step.
  lemma StepDone(t: seq<Entry>, u: seq<Entry>, v: seq<Entry>, c: nat, m: Match, last: nat, next: nat, fav: nat)
    requires c < last && last + 3 < |t| && next + 3 < |t| && MINMATCH <= m.len && OfferedTo(t, u, c, m, last, fav, c + m.len + 1)
    requires next == if c + m.len > last && Taken(t, c, m, last, fav, c + m.len) then c + m.len else last
    requires t[last].mlen >= MINMATCH
    requires |v| == |u| && (forall p :: 0 <= p <= next ==> v[p] == u[p])
    requires forall p :: next < p <= next + 3 ==> v[p] == Entry(v[next].price + (p - next), 0, 1, p - next)
    ensures Updated(t, v, c, m, last, next, fav)
  {
    hide Offer;
  }

  // ---------------------------------------------------------------- the path

  // A forward path through the table: each entry holds the length and offset of the step that
  // starts there.
  ghost predicate Path(src: Bytes, base: nat, t: seq<Entry>, from: nat, to: nat)
    decreases Max(to - from, 0)
  {
    || from == to
    || (&& from < to && from < |t| && t[from].mlen >= 1
        && StepOk(src, base, from, t[from].mlen, t[from].off)
        && from + t[from].mlen <= to && Path(src, base, t, from + t[from].mlen, to))
  }

  ghost predicate StepOk(src: Bytes, base: nat, at: nat, mlen: nat, off: nat) {
    mlen == 1 || Genuine(src, base + at, mlen, off)
  }

  lemma {:induction false} PathFrame(src: Bytes, base: nat, t: seq<Entry>, u: seq<Entry>, from: nat, to: nat)
    requires Path(src, base, t, from, to) && |t| == |u|
    requires forall p :: from <= p < |t| ==> t[p] == u[p]
    ensures Path(src, base, u, from, to)
    decreases Max(to - from, 0)
  {
    if from < to {
      PathFrame(src, base, t, u, from + t[from].mlen, to);
    }
  }

  // The steps of a forward path.
  ghost function Forward(t: seq<Entry>, from: nat, to: nat): seq<Hop>
    decreases Max(to - from, 0)
  {
    if from >= to || from >= |t| || t[from].mlen < 1 then []
    else [Hop(t[from].mlen, t[from].off)] + Forward(t, from + t[from].mlen, to)
  }

  lemma {:induction false} ForwardFrame(t: seq<Entry>, u: seq<Entry>, from: nat, to: nat)
    requires |t| == |u| && forall p :: from <= p < |t| ==> t[p] == u[p]
    ensures Forward(u, from, to) == Forward(t, from, to)
    decreases Max(to - from, 0)
  {
    if from < to && from < |t| && t[from].mlen >= 1 {
      ForwardFrame(t, u, from + t[from].mlen, to);
    }
  }

  // From the end of the path to position 0: whatever the prices chose, the chain of entries
  // stops nowhere else, and what it leaves is a path from 0 to the end.
  method Reverse(src: Bytes, ghost base: nat, opt: array<Entry>, cur: nat, mlen: nat, off: nat)
    requires cur < opt.Length && mlen >= 1 && TableOk(src, base, opt[..], cur)
    requires StepOk(src, base, cur, mlen, off)
    modifies opt
    ensures Path(src, base, opt[..], 0, cur + mlen)
    ensures Forward(opt[..], 0, cur + mlen) == Lz4Prices.Back(old(opt[..]), cur) + [Hop(mlen, off)]
  {
    hide Genuine, Path, Forward, Lz4Prices.Back;
    var pos: nat, length: nat, offset: nat := cur, mlen, off;
    ghost var t := opt[..];
    ghost var hops := Lz4Prices.Back(t, cur) + [Hop(mlen, off)];
    PathEnd(src, base, opt[..], cur + mlen);
    while true
      invariant pos <= cur && length >= 1 && TableOk(src, base, opt[..], pos)
      invariant StepOk(src, base, pos, length, offset)
      invariant pos + length <= cur + mlen && Path(src, base, opt[..], pos + length, cur + mlen)
      invariant forall p :: 0 <= p <= pos ==> opt[p] == t[p]
      invariant hops == Lz4Prices.Back(t, pos) + [Hop(length, offset)] + Forward(opt[..], pos + length, cur + mlen)
      decreases pos
    {
      var next := opt[pos];
      ghost var before := opt[..];
      assert EntryOk(src, base, before[pos], pos);
      opt[pos] := next.(mlen := length, off := offset);
      PathStep(src, base, before, opt[..], pos, length, offset, cur + mlen);
      HopBack(t, before, opt[..], pos, length, offset, cur + mlen);
      length, offset := next.mlen, next.off;
      if next.mlen > pos {
        assert pos == 0;
        break;
      }
      pos := pos - next.mlen;
    }
  }

  // One step of the traversal moves a hop from the table to the path.
  lemma HopBack(t: seq<Entry>, before: seq<Entry>, now: seq<Entry>, pos: nat, length: nat, off: nat, to: nat)
    requires pos < |t| && pos < |before| == |now| && length >= 1 && pos + length <= to && t[pos].mlen >= 1
    requires now == before[pos := now[pos]] && now[pos].mlen == length && now[pos].off == off
    ensures Forward(now, pos, to) == [Hop(length, off)] + Forward(before, pos + length, to)
    ensures t[pos].mlen <= pos ==> Lz4Prices.Back(t, pos) == Lz4Prices.Back(t, pos - t[pos].mlen) + [Hop(t[pos].mlen, t[pos].off)]
    ensures t[pos].mlen > pos ==> Lz4Prices.Back(t, pos) == []
  {
    ForwardFrame(before, now, pos + length, to);
  }

  lemma PathEnd(src: Bytes, base: nat, t: seq<Entry>, to: nat)
    ensures Path(src, base, t, to, to) && Forward(t, to, to) == []
  {
  }

  lemma PathStep(src: Bytes, base: nat, before: seq<Entry>, now: seq<Entry>, pos: nat, length: nat, off: nat, to: nat)
    requires pos < |before| == |now| && length >= 1 && pos + length <= to
    requires Path(src, base, before, pos + length, to) && StepOk(src, base, pos, length, off)
    requires now[pos].mlen == length && now[pos].off == off
    requires forall p :: 0 <= p < |now| && p != pos ==> now[p] == before[p]
    ensures Path(src, base, now, pos, to)
  {
    PathFrame(src, base, before, now, pos + length, to);
  }

  // ---------------------------------------------------------------- encoding

  lemma LenBytesStep(pre: Bytes, n: nat)
    requires n >= 255
    ensures (pre + [255]) + LenBytes(n - 255) == pre + LenBytes(n)
  {
    assert (pre + [255]) + LenBytes(n - 255) == pre + ([255] + LenBytes(n - 255));
  }

  // The length bytes, two 255s at a time.
  method WriteLengthPairs(dest: array<Byte>, op0: nat, n: nat) returns (op: nat)
    requires op0 + n / 255 + 1 <= dest.Length
    modifies dest
    ensures op == op0 + |LenBytes(n)| && op <= dest.Length
    ensures dest[..op] == old(dest[..op0]) + LenBytes(n)
  {
    hide LenBytes;
    op := op0;
    var length := n;
    while length >= 510
      invariant op0 <= op && op + length / 255 + 1 <= dest.Length
      invariant dest[..op] + LenBytes(length) == old(dest[..op0]) + LenBytes(n)
    {
      ghost var before := dest[..op];
      LenBytesStep(before, length);
      LenBytesStep(before + [255], length - 255);
      dest[op], dest[op + 1] := 255, 255;
      op, length := op + 2, length - 510;
      assert dest[..op] == before + [255] + [255];
    }
    if length >= 255 {
      ghost var before := dest[..op];
      LenBytesStep(before, length);
      dest[op] := 255;
      op, length := op + 1, length - 255;
      assert dest[..op] == before + [255];
    }
    LenBytesLast(length);
    ghost var before := dest[..op];
    dest[op] := length;
    op := op + 1;
    assert dest[..op] == before + [length];
  }

  lemma LenBytesLast(n: nat)
    requires n < 255
    ensures LenBytes(n) == [n]
  {
  }

  // The low nibble of the token and the rest of the match length.
  method EmitCodePairs(dest: array<Byte>, token: nat, op0: nat, code: nat) returns (op: nat)
    requires token < op0 && op0 + (code + 240) / 255 <= dest.Length
    requires dest[token] % 16 == 0
    modifies dest
    ensures op == op0 + (code + 240) / 255
    ensures dest[..op] == old(dest[..op0])[token := old(dest[token]) + Nibble(code)] + LenExt(code)
  {
    hide LenExt, LenBytes;
    op := op0;
    ghost var before := dest[..op];
    ExtSize(code);
    dest[token] := dest[token] + Nibble(code);
    assert dest[..op] == before[token := before[token] + Nibble(code)];
    if code >= ML_MASK {
      op := WriteLengthPairs(dest, op, code - ML_MASK);
    } else {
      assert dest[..op] == dest[..op] + LenExt(code);
    }
  }

  method EncodeStep(src: Bytes, dest: array<Byte>, op0: nat, anchor: nat, ip: nat, mlen: nat, off: nat, limited: bool,
                    ghost ss0: seq<Sequence>)
    returns (op: nat, ok: bool, ghost ss: seq<Sequence>)
    requires anchor <= ip && op0 <= dest.Length && Genuine(src, ip, mlen, off)
    requires !limited ==> dest.Length >= |src| + |src| / 255 + 16
    requires Boundary(src, dest[..op0], ss0, anchor)
    modifies dest
    ensures !ok ==> limited && Overfull(src, ss, ip + mlen, dest.Length)
    ensures ok ==> op <= dest.Length && Boundary(src, dest[..op], ss, ip + mlen)
    ensures ok ==> op == op0 + SequencePrice(ip - anchor, mlen)
  {
    hide Boundary, Opened, Matches, LenExt, Head, WithMatch, SequencePrice, LiteralsPrice, Overfull;
    ss := ss0;
    if !limited {
      RoomForLiterals(src, dest[..op0], ss, anchor, ip, dest.Length);
    }
    ghost var pre := dest[..op0];
    GenuineIsCandidate(src, ip, mlen, off);
    NextTiling(src, pre, ss, anchor, ip, mlen, off);
    BoundarySize(src, pre, ss, anchor);
    op, ok := EmitLiterals(src, dest, op0, anchor, ip, limited);
    if !ok {
      SequenceTooLong(src, ss0, anchor, ip, mlen, off, op0, dest.Length);
      ss := ss + [Sequence(src[anchor..ip], off, mlen)];
      return;
    }
    ghost var out := dest[..op];
    OpenedBy(src, pre, out, ss, anchor, ip);
    HeadSize(src[anchor..ip]);
    var m := ip - off;
    op, ok := EmitGivenMatch(src, dest, op0, op, ip, off, mlen, limited, ss, anchor);
    ss := ss + [Sequence(src[anchor..ip], off, mlen)];
    if ok {
      Close(src, out, op0, ss0, anchor, ip, m, ip + mlen);
      TilingSize(src, dest[..op], ss0, Sequence(src[anchor..ip], off, mlen), ip + mlen, op0);
    } else {
      SequenceTooLong(src, ss0, anchor, ip, mlen, off, op0, dest.Length);
    }
  }

  // A tiling whose block does not fit.
  ghost predicate Overfull(src: Bytes, ss: seq<Sequence>, upto: nat, capacity: nat) {
    && upto <= |src| && (forall s <- ss :: Encodable(s))
    && var block := EncodeAll(ss) + EncodeLast(src[upto..]);
    BlockOf(src, block, ss, upto) && |block| > capacity
  }

  lemma NextTiling(src: Bytes, out: Bytes, ss: seq<Sequence>, anchor: nat, ip: nat, mlen: nat, off: nat)
    requires anchor <= ip && Genuine(src, ip, mlen, off) && Boundary(src, out, ss, anchor)
    ensures
      var s := Sequence(src[anchor..ip], off, mlen);
      && (forall x <- ss + [s] :: Encodable(x)) && Boundary(src, EncodeAll(ss + [s]), ss + [s], ip + mlen)
      && |EncodeAll(ss + [s])| == |out| + SequencePrice(ip - anchor, mlen)
  {
    hide Opened, Matches, LenExt, SequencePrice, EncodeSequence;
    var s := Sequence(src[anchor..ip], off, mlen);
    var more := ss + [s];
    GenuineIsCandidate(src, ip, mlen, off);
    OpenedBy(src, out, out + Head(src[anchor..ip]), ss, anchor, ip);
    OpenedToken(src, out + Head(src[anchor..ip]), |out|, ss, anchor, ip);
    Close(src, out + Head(src[anchor..ip]), |out|, ss, anchor, ip, ip - off, ip + mlen);
    assert more[..|more| - 1] == ss && more[|more| - 1] == s;
    PriceIsSize(s);
  }

  lemma BoundarySize(src: Bytes, out: Bytes, ss: seq<Sequence>, anchor: nat)
    requires Boundary(src, out, ss, anchor)
    ensures (forall x <- ss :: Encodable(x)) && |EncodeAll(ss)| == |out|
  {
  }

  lemma HeadSize(literals: Bytes)
    ensures |Head(literals)| == 1 + LiteralsPrice(|literals|)
  {
  }

  lemma TilingSize(src: Bytes, out: Bytes, ss: seq<Sequence>, s: Sequence, upto: nat, size: nat)
    requires (forall x <- ss :: Encodable(x)) && |EncodeAll(ss)| == size && Boundary(src, out, ss + [s], upto)
    ensures |out| == size + SequencePrice(|s.literals|, s.mlen)
  {
    hide Tiles, EndRules, SequencePrice, EncodeSequence;
    var more := ss + [s];
    assert more[..|more| - 1] == ss && more[|more| - 1] == s;
    PriceIsSize(s);
  }

  // The tests before writing fail only for a block that cannot fit.
  lemma SequenceTooLong(src: Bytes, ss: seq<Sequence>, anchor: nat, ip: nat, mlen: nat, off: nat, op: nat, capacity: nat)
    requires anchor <= ip && Genuine(src, ip, mlen, off)
    requires
      var s := Sequence(src[anchor..ip], off, mlen);
      && (forall x <- ss + [s] :: Encodable(x)) && Boundary(src, EncodeAll(ss + [s]), ss + [s], ip + mlen)
      && |EncodeAll(ss + [s])| == op + SequencePrice(ip - anchor, mlen)
    requires
      || op + 9 + (ip - anchor) + (ip - anchor) / 255 > capacity
      || op + 1 + LiteralsPrice(ip - anchor) + 2 + (mlen - MINMATCH) / 255 + 6 > capacity
    ensures Overfull(src, ss + [Sequence(src[anchor..ip], off, mlen)], ip + mlen, capacity)
  {
    hide Tiles, EndRules, EncodeAll, LenExt;
  }

  lemma GenuineIsCandidate(src: Bytes, at: nat, mlen: nat, off: nat)
    requires Genuine(src, at, mlen, off)
    ensures Candidate(src, at - off, at)
  {
  }

  method EmitGivenMatch(src: Bytes, dest: array<Byte>, token: nat, op0: nat, ip: nat, off: nat, mlen: nat, limited: bool,
                        ghost ss: seq<Sequence>, ghost anchor: nat)
    returns (op: nat, ok: bool)
    requires token < op0 && op0 + 7 <= dest.Length && 1 <= off <= MAX_DISTANCE && mlen >= MINMATCH
    requires ip + MFLIMIT <= |src| && ip + mlen <= |src| && dest[token] % 16 == 0
    requires !limited ==> dest.Length >= |src| + |src| / 255 + 16
    requires Opened(src, dest[..op0], token, ss, anchor, ip)
    modifies dest
    ensures !ok ==> limited && op0 + 2 + (mlen - MINMATCH) / 255 + 6 > dest.Length
    ensures ok ==> op <= dest.Length && old(dest[..op0])[token] % 16 == 0
    ensures ok ==> dest[..op] == WithMatch(old(dest[..op0]), token, off, mlen - MINMATCH)
  {
    hide Opened, LenExt, WithMatch;
    if !limited {
      RoomForMatch(src, dest[..op0], token, ss, anchor, ip, dest.Length);
    }
    ghost var out := dest[..op0];
    LittleEndian(off);
    dest[op0], dest[op0 + 1] := off % 256, off / 256;
    op := op0 + 2;
    ghost var before := dest[..op];
    assert before == out + [off % 256, off / 256];
    var code := mlen - MINMATCH;
    if limited && op + code / 255 + (1 + LASTLITERALS) > dest.Length {
      return op, false;
    }
    assert out[token] == before[token];
    op := EmitCodePairs(dest, token, op, code);
    ok := true;
    WithMatchIs(out, before, token, off, code);
  }

  // Encode the steps of a path in order; literals only move `ip`.
  method EncodePath(src: Bytes, dest: array<Byte>, opt: array<Entry>, base: nat, last: nat, op0: nat, anchor0: nat,
                    limited: bool, ghost to: nat, ghost ss0: seq<Sequence>, ghost hops: seq<Hop>)
    returns (op: nat, anchor: nat, ip: nat, ok: bool, ghost ss: seq<Sequence>, ghost end: nat)
    requires op0 <= dest.Length && anchor0 <= base && last <= to && base + to + LASTLITERALS <= |src|
    requires last < opt.Length && Path(src, base, opt[..], 0, to)
    requires hops == Forward(opt[..], 0, to) && hops != [] && to - hops[|hops| - 1].mlen < last
    requires !limited ==> dest.Length >= |src| + |src| / 255 + 16
    requires Boundary(src, dest[..op0], ss0, anchor0)
    modifies dest
    ensures !ok ==> limited && Overfull(src, ss, end, dest.Length)
    ensures ok ==> op <= dest.Length && anchor <= ip == base + to
    ensures ok ==> Boundary(src, dest[..op], ss, anchor)
    ensures ok ==> op == op0 + Paid(hops, base - anchor0) && ip - anchor == Open(hops, base - anchor0)
  {
    hide Boundary, Genuine, Path, Forward, Paid, Open, Overfull, SequencePrice;
    op, anchor, ip, ok, ss, end := op0, anchor0, base, true, ss0, 0;
    var rPos := 0;
    ghost var done: seq<Hop> := [];
    NothingDone(base - anchor0);
    while rPos < last
      invariant ip == base + rPos && rPos <= to && anchor <= ip && op <= dest.Length
      invariant Path(src, base, opt[..], rPos, to)
      invariant Boundary(src, dest[..op], ss, anchor)
      invariant hops == done + Forward(opt[..], rPos, to)
      invariant op == op0 + Paid(done, base - anchor0) && ip - anchor == Open(done, base - anchor0)
      decreases last - rPos
    {
      var ml, offset := opt[rPos].mlen, opt[rPos].off;
      assert opt[..][rPos] == opt[rPos];
      PathInside(src, base, opt[..], rPos, to);
      ghost var h := Hop(ml, offset);
      OneMore(done, h, base - anchor0);
      assert done + ([h] + Forward(opt[..], rPos + ml, to)) == done + [h] + Forward(opt[..], rPos + ml, to);
      if ml == 1 {
        ip, rPos := ip + 1, rPos + 1;
      } else {
        end := ip + ml;
        op, ok, ss := EncodeStep(src, dest, op, anchor, ip, ml, offset, limited, ss);
        if !ok {
          return;
        }
        ip, rPos := ip + ml, rPos + ml;
        anchor := ip;
      }
      done := done + [h];
    }
    PathDone(src, base, opt[..], rPos, to, last, done, hops);
  }

  lemma PathDone(src: Bytes, base: nat, t: seq<Entry>, from: nat, to: nat, last: nat, done: seq<Hop>, hops: seq<Hop>)
    requires Path(src, base, t, from, to) && hops == done + Forward(t, from, to)
    requires hops != [] && to - hops[|hops| - 1].mlen < last <= from <= to
    ensures from == to && hops == done
  {
    hide Path, Forward;
    ForwardEnds(src, base, t, from, to);
  }

  lemma NothingDone(pend: nat)
    ensures Paid([], pend) == 0 && Open([], pend) == pend
  {
  }

  // The last step of a path starts where the others end.
  lemma {:induction false} ForwardEnds(src: Bytes, base: nat, t: seq<Entry>, from: nat, to: nat)
    requires Path(src, base, t, from, to)
    ensures from == to ==> Forward(t, from, to) == []
    ensures from < to ==> Forward(t, from, to) != [] && from + Forward(t, from, to)[|Forward(t, from, to)| - 1].mlen <= to
    decreases Max(to - from, 0)
  {
    hide Genuine;
    if from < to {
      ForwardEnds(src, base, t, from + t[from].mlen, to);
    }
  }

  lemma PathInside(src: Bytes, base: nat, t: seq<Entry>, from: nat, to: nat)
    requires Path(src, base, t, from, to) && from < to
    ensures from < |t| && 1 <= t[from].mlen && from + t[from].mlen <= to && StepOk(src, base, from, t[from].mlen, t[from].off)
    ensures Path(src, base, t, from + t[from].mlen, to)
    ensures Forward(t, from, to) == [Hop(t[from].mlen, t[from].off)] + Forward(t, from + t[from].mlen, to)
  {
    hide Genuine;
  }

  // ---------------------------------------------------------------- the parser

  // How a segment is to be encoded: `last` bounds the positions to visit, and the last step, of
  // length `mlen`, starts at `cur`.
  datatype Choice = Choice(cur: nat, last: nat, mlen: nat, off: nat)

  ghost predicate ChoiceOk(src: Bytes, base: nat, t: seq<Entry>, c: Choice) {
    && c.cur < |t| && c.mlen >= 1 && TableOk(src, base, t, c.cur)
    && StepOk(src, base, c.cur, c.mlen, c.off)
    && 1 <= c.last <= c.cur + c.mlen && c.last < |t|
    && base + c.cur + c.mlen + LASTLITERALS <= |src|
  }

  // The finder returned this match, or nothing, at some time.
  ghost predicate Finds(find: Finder, at: nat, m: Match) {
    exists min: nat, call: nat :: find(at, min, call) == m
  }

  ghost predicate FindsNone(find: Finder, at: nat) {
    exists min: nat, call: nat :: find(at, min, call).len == 0
  }

  // Every position before `stop` offered a match, had none, or was not worth a search.
  ghost predicate Asked(find: Finder, base: nat, t: seq<Entry>, offers: map<nat, Match>, stop: nat, fullUpdate: bool) {
    && stop + 3 < |t|
    && (forall c :: c in offers && c > 0 ==> Finds(find, base + c, offers[c]))
    && forall c :: 1 <= c < stop ==> c in offers || FindsNone(find, base + c) || NotWorth(t, c, fullUpdate)
  }

  ghost predicate NotWorth(t: seq<Entry>, c: nat, fullUpdate: bool) {
    c + 4 < |t| && Skip(t[c].price, t[c + 1].price, t[c + 4].price, fullUpdate)
  }

  // Offer the match found at `cur` to the positions it reaches.
  method OfferMatch(src: Bytes, ghost base: nat, opt: array<Entry>, last0: nat, cur: nat, m: Match, favorDecSpeed: Favor,
                    ghost llen: nat, ghost offers: map<nat, Match>, ghost find: Finder, ghost fullUpdate: bool)
    returns (last: nat)
    requires opt.Length == OPT_NUM + TRAILING_LITERALS && 1 <= cur < last0 < OPT_NUM && cur + m.len < OPT_NUM
    requires Genuine(src, base + cur, m.len, m.off) && m.len >= MINMATCH && base + last0 + LASTLITERALS <= |src|
    requires TableOk(src, base, opt[..], last0 + 3) && Priced(opt[..], llen, offers, cur, last0) && Searched(opt[..], cur)
    requires Asked(find, base, opt[..], offers, cur, fullUpdate) && Finds(find, base + cur, m)
    modifies opt
    ensures last0 <= last < OPT_NUM && base + last + LASTLITERALS <= |src|
    ensures TableOk(src, base, opt[..], last + 3) && Priced(opt[..], llen, offers[cur := m], cur + 1, last)
    ensures Asked(find, base, opt[..], offers[cur := m], cur + 1, fullUpdate)
  {
    hide Genuine, TableOk, EntryOk, Priced, Asked, OfferedTo, Taken, Updated, Finds, Searched;
    ghost var t := opt[..];
    AtLeastFour(src, base + cur, m);
    BeforeMatch(src, base, opt, llen, offers, cur, last0);
    ghost var reach;
    last, reach := MatchLengths(src, base, opt, last0, cur, m, favorDecSpeed, llen, offers);
    ghost var u := opt[..];
    Trailing(src, base, opt, reach, last);
    LastIsMatch(t, llen, offers, cur, last0);
    StepDone(t, u, opt[..], cur, m, last0, last, favorDecSpeed);
    AskedMore(find, base, t, opt[..], offers, cur, m, last0, last, favorDecSpeed, llen, fullUpdate);
    StepPriced(t, llen, offers, cur, last0, opt[..], m, last, favorDecSpeed);
  }

  // Fill the table from the first match on, until the last position any match reached; `sudden`
  // says that a match long enough to be taken at once was met.
  method FillTable(src: Bytes, find: Finder, call0: nat, opt: array<Entry>, base: nat, first: Match,
                   sufficient: nat, fullUpdate: bool, favorDecSpeed: Favor, ghost llen: nat)
    returns (c: Choice, call: nat, ghost offers: map<nat, Match>, ghost cur': nat, ghost last': nat, ghost sudden: bool)
    requires opt.Length == OPT_NUM + TRAILING_LITERALS && first.len < OPT_NUM
    requires Honest(src, find) && Genuine(src, base, first.len, first.off)
    requires TableOk(src, base, opt[..], first.len + 3) && Priced(opt[..], llen, map[0 := first], 1, first.len)
    modifies opt
    ensures ChoiceOk(src, base, opt[..], c)
    ensures Priced(opt[..], llen, offers, cur', last') && 0 in offers && offers[0] == first && Asked(find, base, opt[..], offers, cur', fullUpdate)
    ensures c.cur < c.last && c.cur <= last' && c.mlen >= MINMATCH
    ensures sudden ==> c.cur == cur' < last' && c.last == cur' + 1 && Finds(find, base + cur', Match(c.off, c.mlen))
                       && (c.mlen > sufficient || cur' + c.mlen >= OPT_NUM)
    ensures !sudden ==> c.last == last' && c.cur + c.mlen == last' && c.mlen == opt[last'].mlen && c.off == opt[last'].off
    ensures !sudden ==> cur' >= last' || base + cur' + MFLIMIT > |src|
  {
    hide Genuine, TableOk, EntryOk, Honest, Priced, Asked, Finds, FindsNone, Searched;
    AtLeastFour(src, base, first);
    var last := first.len;
    var cur := 1;
    call, offers, sudden := call0, map[0 := first], false;
    AskedNone(find, base, opt[..], first, fullUpdate);
    while cur < last
      invariant 1 <= cur <= last < OPT_NUM && base + last + LASTLITERALS <= |src|
      invariant TableOk(src, base, opt[..], last + 3) && Priced(opt[..], llen, offers, cur, last)
      invariant 0 in offers && offers[0] == first && Asked(find, base, opt[..], offers, cur, fullUpdate)
      decreases OPT_NUM - cur
    {
      if base + cur + MFLIMIT > |src| {
        break;
      }
      ghost var t := opt[..];
      if Skip(opt[cur].price, opt[cur + 1].price, opt[cur + MINMATCH].price, fullUpdate) {
        AskedSkip(find, base, t, offers, cur, fullUpdate);
        SkipPriced(t, llen, offers, cur, last);
        cur := cur + 1;
        continue;
      }
      SearchedIs(t, llen, offers, cur, last, fullUpdate);
      var m := find(base + cur, if fullUpdate then MINMATCH - 1 else last - cur, call);
      FoundGenuine(src, find, base + cur, if fullUpdate then MINMATCH - 1 else last - cur, call);
      FindsIs(find, base + cur, if fullUpdate then MINMATCH - 1 else last - cur, call);
      call := call + 1;
      if m.len == 0 {
        AskedVainly(find, base, t, offers, cur, fullUpdate);
        SkipPriced(t, llen, offers, cur, last);
        cur := cur + 1;
        continue;
      }
      AtLeastFour(src, base + cur, m);
      if m.len > sufficient || m.len + cur >= OPT_NUM {
        c := Choice(cur, cur + 1, m.len, m.off);
        TableLess(src, base, opt[..], last + 3, cur);
        sudden, cur', last' := true, cur, last;
        return;
      }
      last := OfferMatch(src, base, opt, last, cur, m, favorDecSpeed, llen, offers, find, fullUpdate);
      offers := offers[cur := m];
      cur := cur + 1;
    }
    cur', last' := cur, last;
    var best := opt[last];
    LastIsMatch(opt[..], llen, offers, cur, last);
    LastEntry(src, base, opt[..], last);
    c := Choice(last - best.mlen, last, best.mlen, best.off);
  }

  lemma FindsIs(find: Finder, at: nat, min: nat, call: nat)
    ensures Finds(find, at, find(at, min, call)) && (find(at, min, call).len == 0 ==> FindsNone(find, at))
  {
  }

  lemma LastIsMatch(t: seq<Entry>, llen: nat, offers: map<nat, Match>, cur: nat, last: nat)
    requires Priced(t, llen, offers, cur, last)
    ensures last < |t| && t[last].mlen >= MINMATCH
  {
  }

  lemma AskedNone(find: Finder, base: nat, t: seq<Entry>, first: Match, fullUpdate: bool)
    requires |t| > 4
    ensures Asked(find, base, t, map[0 := first], 1, fullUpdate)
  {
  }

  lemma AskedSkip(find: Finder, base: nat, t: seq<Entry>, offers: map<nat, Match>, cur: nat, fullUpdate: bool)
    requires Asked(find, base, t, offers, cur, fullUpdate) && cur + 4 < |t| && Skip(t[cur].price, t[cur + 1].price, t[cur + 4].price, fullUpdate)
    ensures Asked(find, base, t, offers, cur + 1, fullUpdate)
  {
    hide Finds, FindsNone;
  }

  lemma AskedVainly(find: Finder, base: nat, t: seq<Entry>, offers: map<nat, Match>, cur: nat, fullUpdate: bool)
    requires Asked(find, base, t, offers, cur, fullUpdate) && cur + 4 < |t| && FindsNone(find, base + cur)
    ensures Asked(find, base, t, offers, cur + 1, fullUpdate)
  {
    hide Finds, FindsNone;
  }

  // A position that was not worth a search still is not after the step.
  lemma AskedMore(find: Finder, base: nat, t: seq<Entry>, u: seq<Entry>, offers: map<nat, Match>, cur: nat, m: Match, last: nat, next: nat,
                  fav: nat, llen: nat, fullUpdate: bool)
    requires Asked(find, base, t, offers, cur, fullUpdate) && Finds(find, base + cur, m)
    requires Ready(t, llen, offers, cur, last, u, m, next, fav)
    ensures Asked(find, base, u, offers[cur := m], cur + 1, fullUpdate)
  {
    hide Finds, FindsNone, Ready, NotWorth;
    ReadyShape(t, llen, offers, cur, last, u, m, next, fav);
    forall c | 1 <= c < cur + 1
      ensures c in offers[cur := m] || FindsNone(find, base + c) || NotWorth(u, c, fullUpdate)
    {
      if c < cur && NotWorth(t, c, fullUpdate) {
        StillNotWorth(t, u, offers, cur, m, last, next, fav, llen, fullUpdate, c);
      }
    }
  }

  lemma StillNotWorth(t: seq<Entry>, u: seq<Entry>, offers: map<nat, Match>, cur: nat, m: Match, last: nat, next: nat, fav: nat, llen: nat,
                      fullUpdate: bool, c: nat)
    requires Ready(t, llen, offers, cur, last, u, m, next, fav) && c < cur && NotWorth(t, c, fullUpdate)
    ensures NotWorth(u, c, fullUpdate)
  {
    hide Ready;
    ReadyShape(t, llen, offers, cur, last, u, m, next, fav);
    NewPrice(t, llen, offers, cur, last, u, m, next, fav, c);
    NotDearer(t, llen, offers, cur, last, u, m, next, fav, c + 1);
    NotDearer(t, llen, offers, cur, last, u, m, next, fav, c + 4);
  }

  lemma FoundGenuine(src: Bytes, find: Finder, at: nat, min: nat, call: nat)
    requires Honest(src, find) && at + MFLIMIT <= |src|
    ensures var m := find(at, min, call); m.len == 0 || Genuine(src, at, m.len, m.off)
  {
  }

  lemma TableLess(src: Bytes, base: nat, t: seq<Entry>, upto: nat, less: nat)
    requires TableOk(src, base, t, upto) && less <= upto
    ensures TableOk(src, base, t, less)
  {
  }

  lemma LastEntry(src: Bytes, base: nat, t: seq<Entry>, last: nat)
    requires TableOk(src, base, t, last + 3) && last >= 1 && base + last + LASTLITERALS <= |src|
    ensures 1 <= t[last].mlen <= last
    ensures ChoiceOk(src, base, t, Choice(last - t[last].mlen, last, t[last].mlen, t[last].off))
  {
    hide Genuine;
    assert EntryOk(src, base, t[last], last);
  }

  // What a segment is encoded as: `hops`, of which all but the last step, and unless a match was
  // long enough to be taken at once all of it, is as cheap as any way made of literals and of the
  // matches offered.
  ghost predicate Best(hops: seq<Hop>, offers: map<nat, Match>, llen: nat, sudden: bool) {
    && hops != [] && hops[|hops| - 1].mlen >= MINMATCH && Allowed(hops[..|hops| - 1], offers)
    && (forall w :: Allowed(w, offers) && Length(w) == Length(hops[..|hops| - 1]) ==> Cost(hops[..|hops| - 1], llen) <= Cost(w, llen))
    && (!sudden ==> Allowed(hops, offers) && forall w :: Allowed(w, offers) && Length(w) == Length(hops) ==> Cost(hops, llen) <= Cost(w, llen))
  }

  // One segment: the table, the path, its encoding.
  method Segment(src: Bytes, dest: array<Byte>, find: Finder, call0: nat, opt: array<Entry>, op0: nat, anchor0: nat, ip0: nat,
                 first: Match, sufficient: nat, limited: bool, fullUpdate: bool, favorDecSpeed: Favor, ghost ss0: seq<Sequence>)
    returns (op: nat, anchor: nat, ip: nat, ok: bool, call: nat, ghost ss: seq<Sequence>, ghost end: nat,
             ghost hops: seq<Hop>, ghost offers: map<nat, Match>, ghost sudden: bool)
    requires opt.Length == OPT_NUM + TRAILING_LITERALS && first.len < OPT_NUM
    requires Honest(src, find) && Genuine(src, ip0, first.len, first.off)
    requires op0 <= dest.Length && anchor0 <= ip0
    requires !limited ==> dest.Length >= |src| + |src| / 255 + 16
    requires Boundary(src, dest[..op0], ss0, anchor0)
    modifies dest, opt
    ensures !ok ==> limited && Overfull(src, ss, end, dest.Length)
    ensures ok ==> op <= dest.Length && anchor == ip && ip0 < ip <= |src| && Boundary(src, dest[..op], ss, anchor)
    ensures ok ==> ip == ip0 + Length(hops) && op == op0 + Cost(hops, ip0 - anchor0)
    ensures 0 in offers && offers[0] == first && forall c :: c in offers && c > 0 ==> Finds(find, ip0 + c, offers[c])
    ensures Best(hops, offers, ip0 - anchor0, sudden)
    ensures sudden ==> hops[|hops| - 1].mlen > sufficient || Length(hops) >= OPT_NUM
    ensures exists t, stop :: Asked(find, ip0, t, offers, stop, fullUpdate) && Stops(t, ip0 - anchor0, offers, stop, hops, sudden, ip0, |src|)
  {
    hide Genuine, TableOk, Honest, Boundary, Path, Priced, Asked, ChoiceOk, Forward, Lz4Prices.Back, Paid, Open, Overfull, Best, Stops, Allowed, Finds;
    FirstMatch(src, ip0, opt, ip0 - anchor0, first);
    var c;
    ghost var cur, last;
    c, call, offers, cur, last, sudden := FillTable(src, find, call0, opt, ip0, first, sufficient, fullUpdate, favorDecSpeed, ip0 - anchor0);
    ghost var t := opt[..];
    ChoiceFacts(src, ip0, t, c);
    hops := Lz4Prices.Back(t, c.cur) + [Hop(c.mlen, c.off)];
    BestIs(t, ip0 - anchor0, offers, cur, last, c, hops, sudden);
    StopsIs(t, ip0 - anchor0, offers, cur, last, c, hops, sudden, ip0, |src|);
    AskedOffers(find, ip0, t, offers, cur, fullUpdate);
    Reverse(src, ip0, opt, c.cur, c.mlen, c.off);
    op, anchor, ip, ok, ss, end := EncodePath(src, dest, opt, ip0, c.last, op0, anchor0, limited, c.cur + c.mlen, ss0, hops);
  }

  // Where the table of a segment ends: at the last position reached by a match, when all before it
  // were looked at or the input is near its end, or where a long match was met.
  ghost predicate Stops(t: seq<Entry>, llen: nat, offers: map<nat, Match>, stop: nat, hops: seq<Hop>, sudden: bool, base: nat, size: nat) {
    exists last :: Priced(t, llen, offers, stop, last) &&
      if sudden then stop < last && Length(hops[..Max(|hops| - 1, 0)]) == stop
      else Length(hops) == last && (stop >= last || base + stop + MFLIMIT > size)
  }

  lemma ChoiceFacts(src: Bytes, base: nat, t: seq<Entry>, c: Choice)
    requires ChoiceOk(src, base, t, c)
    ensures c.cur < |t| && c.mlen >= 1 && TableOk(src, base, t, c.cur) && StepOk(src, base, c.cur, c.mlen, c.off)
    ensures 1 <= c.last <= c.cur + c.mlen && c.last < |t| && base + c.cur + c.mlen + LASTLITERALS <= |src|
  {
    hide TableOk, StepOk;
  }

  lemma AskedOffers(find: Finder, base: nat, t: seq<Entry>, offers: map<nat, Match>, stop: nat, fullUpdate: bool)
    requires Asked(find, base, t, offers, stop, fullUpdate)
    ensures forall c :: c in offers && c > 0 ==> Finds(find, base + c, offers[c])
  {
    hide Finds;
  }

  lemma StopsIs(t: seq<Entry>, llen: nat, offers: map<nat, Match>, cur: nat, last: nat, c: Choice, hops: seq<Hop>, sudden: bool, base: nat, size: nat)
    requires Priced(t, llen, offers, cur, last) && c.cur <= last && c.mlen >= MINMATCH
    requires hops == Lz4Prices.Back(t, c.cur) + [Hop(c.mlen, c.off)]
    requires sudden ==> c.cur == cur < last
    requires !sudden ==> c.cur + c.mlen == last && (cur >= last || base + cur + MFLIMIT > size)
    ensures Stops(t, llen, offers, cur, hops, sudden, base, size)
    ensures Length(hops) == c.cur + c.mlen && Cost(hops, llen) == Paid(hops, llen) && Open(hops, llen) == 0
  {
    hide Priced, Lz4Prices.Back;
    PricedShape(t, llen, offers, cur, last);
    BackAllowed(t, llen, offers, cur, last, c.cur);
    OneMore(Lz4Prices.Back(t, c.cur), Hop(c.mlen, c.off), llen);
    assert hops[..|hops| - 1] == Lz4Prices.Back(t, c.cur);
  }

  lemma BestIs(t: seq<Entry>, llen: nat, offers: map<nat, Match>, cur: nat, last: nat, c: Choice, hops: seq<Hop>, sudden: bool)
    requires Priced(t, llen, offers, cur, last) && c.cur <= last && c.mlen >= MINMATCH
    requires hops == Lz4Prices.Back(t, c.cur) + [Hop(c.mlen, c.off)]
    requires !sudden ==> c.cur + c.mlen == last && last < |t| && c.mlen == t[last].mlen && c.off == t[last].off
    ensures Best(hops, offers, llen, sudden)
  {
    hide Priced, Lz4Prices.Back, Allowed, Cost, Length;
    PricedShape(t, llen, offers, cur, last);
    var init := hops[..|hops| - 1];
    assert init == Lz4Prices.Back(t, c.cur);
    BestAt(t, llen, offers, cur, last, c.cur);
    if !sudden {
      LastBack(t, last);
      BestAt(t, llen, offers, cur, last, last);
    }
  }

  lemma LastBack(t: seq<Entry>, last: nat)
    requires 0 < last < |t| && 1 <= t[last].mlen <= last
    ensures Lz4Prices.Back(t, last) == Lz4Prices.Back(t, last - t[last].mlen) + [Hop(t[last].mlen, t[last].off)]
  {
  }

  lemma BestAt(t: seq<Entry>, llen: nat, offers: map<nat, Match>, cur: nat, last: nat, p: nat)
    requires Priced(t, llen, offers, cur, last) && p <= last
    ensures var way := Lz4Prices.Back(t, p);
      && Allowed(way, offers) && Length(way) == p
      && forall w :: Allowed(w, offers) && Length(w) == p ==> Cost(way, llen) <= Cost(w, llen)
  {
    hide Priced, Lz4Prices.Back, Allowed, Cost, Length;
    PriceIsCost(t, llen, offers, cur, last, p);
    BackAllowed(t, llen, offers, cur, last, p);
    forall w | Allowed(w, offers) && Length(w) == p
      ensures Cost(Lz4Prices.Back(t, p), llen) <= Cost(w, llen)
    {
      Cheapest(t, llen, offers, cur, last, w);
    }
  }

  // Unless a long match was taken at once, a segment is no larger than its first match followed by
  // literals.
  lemma NoWorseThanFirst(hops: seq<Hop>, offers: map<nat, Match>, llen: nat)
    requires Best(hops, offers, llen, false) && 0 in offers && MINMATCH <= offers[0].len <= Length(hops)
    ensures Cost(hops, llen) <= SequencePrice(llen, offers[0].len) + LiteralsPrice(Length(hops) - offers[0].len)
  {
    hide Allowed, Cost, Length, SequencePrice, LiteralsPrice;
    ThenLiteralsCost(offers[0], Length(hops) - offers[0].len, offers, llen);
  }

  // ---------------------------------------------------------------- the whole input

  // A match taken at once, or a segment.
  datatype Part = Long(at: nat, m: Match) | Way(at: nat, hops: seq<Hop>, offers: map<nat, Match>, sudden: bool)

  ghost function PartEnd(p: Part): nat {
    match p
    case Long(at, m) => at + m.len
    case Way(at, hops, _, _) => at + Length(hops)
  }

  ghost function PartCost(start: nat, p: Part): nat
    requires start <= p.at
  {
    match p
    case Long(at, m) => SequencePrice(at - start, m.len)
    case Way(at, hops, _, _) => Cost(hops, at - start)
  }

  // From `start` to the part no match was found; the first match found there is long enough, or
  // begins a segment that is as small as any.
  ghost predicate PartOk(find: Finder, sufficient: nat, start: nat, p: Part) {
    && start <= p.at && Nothing(find, start, p.at)
    && match p
       case Long(at, m) => m.len > sufficient && Finds(find, at, m)
       case Way(at, hops, offers, sudden) =>
         && 0 in offers && offers[0].len <= sufficient && Finds(find, at, offers[0])
         && (forall c :: c in offers && c > 0 ==> Finds(find, at + c, offers[c]))
         && Best(hops, offers, at - start, sudden)
  }

  ghost predicate Nothing(find: Finder, from: nat, to: nat) {
    forall q :: from <= q < to ==> FindsNone(find, q)
  }

  ghost function EndOf(parts: seq<Part>): nat {
    if parts == [] then 0 else PartEnd(parts[|parts| - 1])
  }

  ghost predicate PartsOk(find: Finder, sufficient: nat, parts: seq<Part>) {
    parts == [] || (PartsOk(find, sufficient, parts[..|parts| - 1]) && PartOk(find, sufficient, EndOf(parts[..|parts| - 1]), parts[|parts| - 1]))
  }

  ghost function SizeOf(find: Finder, sufficient: nat, parts: seq<Part>): nat
    requires PartsOk(find, sufficient, parts)
  {
    if parts == [] then 0
    else SizeOf(find, sufficient, parts[..|parts| - 1]) + PartCost(EndOf(parts[..|parts| - 1]), parts[|parts| - 1])
  }

  lemma OnePart(find: Finder, sufficient: nat, parts: seq<Part>, p: Part)
    requires PartsOk(find, sufficient, parts) && PartOk(find, sufficient, EndOf(parts), p)
    ensures PartsOk(find, sufficient, parts + [p]) && EndOf(parts + [p]) == PartEnd(p)
    ensures SizeOf(find, sufficient, parts + [p]) == SizeOf(find, sufficient, parts) + PartCost(EndOf(parts), p)
  {
    hide PartOk, PartCost, PartEnd;
    assert (parts + [p])[..|parts|] == parts && (parts + [p])[|parts|] == p;
  }

  // What begins with the match found at `ip`.
  method TakePart(src: Bytes, dest: array<Byte>, find: Finder, call0: nat, opt: array<Entry>, op0: nat, anchor: nat, ip0: nat,
                  first: Match, sufficient: nat, limited: bool, fullUpdate: bool, favorDecSpeed: Favor, ghost ss0: seq<Sequence>)
    returns (op: nat, ip: nat, ok: bool, call: nat, ghost ss: seq<Sequence>, ghost end: nat, ghost part: Part)
    requires opt.Length == OPT_NUM + TRAILING_LITERALS && sufficient < OPT_NUM
    requires Honest(src, find) && Genuine(src, ip0, first.len, first.off) && Finds(find, ip0, first)
    requires op0 <= dest.Length && anchor <= ip0 && Nothing(find, anchor, ip0)
    requires !limited ==> dest.Length >= |src| + |src| / 255 + 16
    requires Boundary(src, dest[..op0], ss0, anchor)
    modifies dest, opt
    ensures !ok ==> limited && Overfull(src, ss, end, dest.Length)
    ensures ok ==> op <= dest.Length && ip0 < ip <= |src| && Boundary(src, dest[..op], ss, ip)
    ensures ok ==> PartOk(find, sufficient, anchor, part) && PartEnd(part) == ip && op == op0 + PartCost(anchor, part)
  {
    hide Genuine, Honest, Boundary, Overfull, PartOk, Best, SequencePrice, Cost, Finds, Nothing, Asked, Stops, Length;
    AtLeastFour(src, ip0, first);
    call := call0;
    if first.len > sufficient {
      op, ok, ss := EncodeStep(src, dest, op0, anchor, ip0, first.len, first.off, limited, ss0);
      LongOk(find, sufficient, anchor, ip0, first);
      ip, end, part := ip0 + first.len, ip0 + first.len, Long(ip0, first);
    } else {
      ghost var hops, offers, sudden;
      var anchor';
      op, anchor', ip, ok, call, ss, end, hops, offers, sudden :=
        Segment(src, dest, find, call, opt, op0, anchor, ip0, first, sufficient, limited, fullUpdate, favorDecSpeed, ss0);
      part := Way(ip0, hops, offers, sudden);
      WayOk(find, sufficient, anchor, part, first);
    }
  }

  method CompressOptimal(src: Bytes, dest: array<Byte>, find: Finder, sufficientLen: nat, limited: bool,
                         fullUpdate: bool, favorDecSpeed: Favor)
    returns (r: nat, ghost ss: seq<Sequence>, ghost upto: nat, ghost parts: seq<Part>)
    requires Honest(src, find)
    requires !limited ==> dest.Length >= |src| + |src| / 255 + 16
    modifies dest
    ensures r <= dest.Length
    ensures r > 0 ==> BlockOf(src, dest[..r], ss, upto)
    ensures r == 0 ==> limited && Overfull(src, ss, upto, dest.Length)
    ensures r > 0 ==> PartsOk(find, Min(sufficientLen, OPT_NUM - 1), parts) && EndOf(parts) == upto
    ensures r > 0 ==> r == SizeOf(find, Min(sufficientLen, OPT_NUM - 1), parts) + |EncodeLast(src[upto..])|
    ensures r > 0 ==> Nothing(find, upto, Max(|src| - MFLIMIT + 1, 0))
  {
    hide Genuine, Honest, Boundary, EncodeLast, Overfull, PartOk, PartsOk, PartEnd, EndOf, SizeOf, PartCost, Finds;
    var opt := new Entry[OPT_NUM + TRAILING_LITERALS](_ => Entry(0, 0, 0, 0));
    var sufficient := if sufficientLen >= OPT_NUM then OPT_NUM - 1 else sufficientLen;
    var op: nat, anchor: nat, ip: nat, call: nat, ok := 0, 0, 0, 0, true;
    ss, upto, parts := [], 0, [];
    NothingYet(src, dest[..op]);
    NoParts(find, sufficient);
    while ip + MFLIMIT <= |src|
      invariant op <= dest.Length && anchor <= ip <= |src|
      invariant Boundary(src, dest[..op], ss, anchor)
      invariant PartsOk(find, sufficient, parts) && EndOf(parts) == anchor && SizeOf(find, sufficient, parts) == op
      invariant Nothing(find, anchor, ip)
    {
      var first := find(ip, MINMATCH - 1, call);
      FoundGenuine(src, find, ip, MINMATCH - 1, call);
      FindsIs(find, ip, MINMATCH - 1, call);
      call := call + 1;
      if first.len == 0 {
        ip := ip + 1;
      } else {
        ghost var end, part;
        op, ip, ok, call, ss, end, part :=
          TakePart(src, dest, find, call, opt, op, anchor, ip, first, sufficient, limited, fullUpdate, favorDecSpeed, ss);
        anchor := ip;
        if !ok {
          return 0, ss, end, parts;
        }
        OnePart(find, sufficient, parts, part);
        parts := parts + [part];
      }
    }
    upto := anchor;
    ghost var before := dest[..op];
    op, ok := EmitLast(src, dest, op, anchor, limited, ss);
    if !ok {
      LastOverfull(src, before, ss, anchor, dest.Length);
      return 0, ss, upto, parts;
    }
    r := op;
    ToBlock(src, before, ss, anchor);
  }

  lemma NoParts(find: Finder, sufficient: nat)
    ensures PartsOk(find, sufficient, []) && EndOf([]) == 0 && SizeOf(find, sufficient, []) == 0
  {
  }

  lemma LongOk(find: Finder, sufficient: nat, start: nat, at: nat, m: Match)
    requires start <= at && Nothing(find, start, at) && Finds(find, at, m) && m.len > sufficient
    ensures PartOk(find, sufficient, start, Long(at, m)) && PartCost(start, Long(at, m)) == SequencePrice(at - start, m.len)
  {
  }

  lemma WayOk(find: Finder, sufficient: nat, start: nat, p: Part, first: Match)
    requires p.Way? && start <= p.at && Nothing(find, start, p.at) && Finds(find, p.at, first) && first.len <= sufficient
    requires 0 in p.offers && p.offers[0] == first && (forall c :: c in p.offers && c > 0 ==> Finds(find, p.at + c, p.offers[c]))
    requires Best(p.hops, p.offers, p.at - start, p.sudden)
    ensures PartOk(find, sufficient, start, p) && PartCost(start, p) == Cost(p.hops, p.at - start)
  {
    hide Best, Cost, Finds, Nothing;
  }

  lemma LastOverfull(src: Bytes, out: Bytes, ss: seq<Sequence>, anchor: nat, capacity: nat)
    requires anchor <= |src| && Boundary(src, out, ss, anchor) && |out| + |EncodeLast(src[anchor..])| > capacity
    ensures Overfull(src, ss, anchor, capacity)
  {
    hide Tiles, EncodeAll, EndRules, EncodeLast;
  }

  // Whatever the finder and the prices, the block decodes to the input.  Larger inputs are turned
  // away before the parser is reached.
  method OptimalRoundTrip(src: Bytes, dest: array<Byte>, find: Finder, sufficientLen: nat, fullUpdate: bool,
                          favorDecSpeed: Favor, back: array<Byte>)
    returns (size: nat, r: int)
    requires Honest(src, find) && back.Length >= |src| && dest != back && |src| <= MAX_INPUT_SIZE
    modifies dest, back
    ensures size > 0 ==> r == |src| && back[..r] == src
    ensures dest.Length >= |src| + |src| / 255 + 16 ==> size > 0
  {
    hide Honest, Tiles, EncodeAll, EncodeLast, EndRules;
    r := 0;
    ghost var ss, upto, parts;
    size, ss, upto, parts := CompressOptimal(src, dest, find, sufficientLen, dest.Length < |src| + |src| / 255 + 16,
                                      fullUpdate, favorDecSpeed);
    if size > 0 {
      r := DecodeBlock(src, ss, upto, dest[..size], back);
    }
  }
}
