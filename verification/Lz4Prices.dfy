/**
  * The prices of the optimal LZ4 parser.  A table holds, for each position of a segment, the price
  * of the best way found to get there and its last step.  Every price is exactly the size of the
  * encoding it stands for, and no way made of literals and of the matches offered so far, cut to any
  * length, is cheaper.  What keeps this so is that prices never fall and rise by at most one from a
  * position to the next, and by at least one in every 255.
  */
module Lz4Prices {
  import opened Basics
  import opened ByteSeq
  import opened Lz4Format

  // ---------------------------------------------------------------- prices

  function LiteralsPrice(litlen: nat): nat {
    litlen + if litlen >= RUN_MASK then 1 + (litlen - RUN_MASK) / 255 else 0
  }

  // The bytes that a match length takes beyond its token.
  function Ext(mlen: nat): nat {
    if mlen >= ML_MASK + MINMATCH then 1 + (mlen - (ML_MASK + MINMATCH)) / 255 else 0
  }

  function SequencePrice(litlen: nat, mlen: nat): nat {
    1 + 2 + LiteralsPrice(litlen) + Ext(mlen)
  }

  // A price is the size of the encoding it stands for.
  lemma PriceIsSize(s: Sequence)
    requires Encodable(s)
    ensures SequencePrice(|s.literals|, s.mlen) == |EncodeSequence(s)|
    ensures 1 + LiteralsPrice(|s.literals|) == |EncodeLast(s.literals)|
  {
    assert |LenExt(|s.literals|)| + |s.literals| == LiteralsPrice(|s.literals|);
    assert |LenExt(s.mlen - MINMATCH)| == Ext(s.mlen);
  }

  lemma ExtIs(n: nat)
    ensures Ext(n) == (n + 236) / 255
  {
  }

  lemma ExtNext(n: nat)
    ensures Ext(n) <= Ext(n + 1) <= Ext(n) + 1
  {
    ExtIs(n);
    ExtIs(n + 1);
  }

  // A match that is longer by `d` takes at least d / 255 more bytes, and at most one more than that.
  lemma ExtMore(n: nat, d: nat)
    ensures Ext(n) + d / 255 <= Ext(n + d) <= Ext(n) + d / 255 + 1
    ensures Ext(n + d + 1) <= Ext(n) + d / 255 + 1
  {
    ExtIs(n);
    ExtIs(n + d);
    ExtIs(n + d + 1);
  }

  lemma LiteralsNext(n: nat, k: nat)
    ensures LiteralsPrice(n) + k <= LiteralsPrice(n + k)
    ensures k <= 4 ==> LiteralsPrice(n + k) <= LiteralsPrice(n) + k + 1
    ensures n + k < RUN_MASK ==> LiteralsPrice(n + k) == LiteralsPrice(n) + k
  {
  }

  // ---------------------------------------------------------------- the table

  datatype Match = Match(off: nat, len: nat)

  datatype Entry = Entry(price: int, off: nat, mlen: nat, litlen: nat)

  // The price at `c + ml` is no more than that of the match from `c`.
  ghost predicate RelaxedAt(t: seq<Entry>, c: nat, ml: nat) {
    c + ml < |t| && t[c + ml].price <= t[c].price + 3 + Ext(ml)
  }

  // The first four positions are literals after the `llen` before the segment.
  ghost predicate Starts(t: seq<Entry>, llen: nat) {
    |t| >= 4 && forall p :: 0 <= p < 4 ==> t[p].price == LiteralsPrice(llen + p) && t[p].mlen == 1 && t[p].litlen == llen + p
  }

  // From position 4 on prices do not fall, and rise by at most one.
  ghost predicate Smooth(t: seq<Entry>, upto: nat) {
    upto < |t| && forall p :: 4 <= p < upto ==> t[p].price <= t[p + 1].price <= t[p].price + 1
  }

  // They rise by at least one in 255.
  ghost predicate Grows(t: seq<Entry>, upto: nat) {
    && upto < |t|
    && (forall x, y :: 4 <= x <= y <= upto ==> t[x].price + (y - x) / 255 <= t[y].price)
    && (forall y :: 4 <= y <= upto ==> t[0].price + 3 + y / 255 <= t[y].price)
  }

  // The price of an entry is that of the entry it comes from and of its own step.
  ghost predicate FromLiteral(t: seq<Entry>, p: nat) {
    && p < |t| && t[p].mlen == 1 && 1 <= t[p].litlen <= 3 && 4 <= p - t[p].litlen
    && t[p].price == t[p - t[p].litlen].price + t[p].litlen && t[p - t[p].litlen].mlen >= MINMATCH
  }

  ghost predicate FromMatch(t: seq<Entry>, p: nat, offers: map<nat, Match>) {
    && p < |t| && MINMATCH <= t[p].mlen <= p && p - t[p].mlen in offers
    && t[p].mlen <= offers[p - t[p].mlen].len && t[p].off == offers[p - t[p].mlen].off
    && t[p].price == t[p - t[p].mlen].price + 3 + Ext(t[p].mlen)
  }

  ghost predicate Backed(t: seq<Entry>, upto: nat, offers: map<nat, Match>) {
    upto < |t| && forall p :: 4 <= p <= upto ==> FromLiteral(t, p) || FromMatch(t, p, offers)
  }

  // No match offered so far, cut to any length, would lower a price.
  ghost predicate Relaxed(t: seq<Entry>, offers: map<nat, Match>, upto: nat) {
    forall c :: c in offers ==> RelaxedFrom(t, c, offers[c].len, upto)
  }

  ghost predicate RelaxedFrom(t: seq<Entry>, c: nat, len: nat, upto: nat) {
    c + len <= upto && forall ml: nat :: MINMATCH <= ml <= len ==> RelaxedAt(t, c, ml)
  }

  ghost predicate OffersOk(t: seq<Entry>, offers: map<nat, Match>, cur: nat, last: nat) {
    && 0 in offers && 4 <= last
    && (forall c :: c in offers ==> c < cur && c < |t| && offers[c].len >= MINMATCH && (c < 4 ==> t[c].price <= t[0].price + 3))
    && exists e :: e in offers && e + offers[e].len == last
  }

  // Three literals after the last match.
  ghost predicate Trails(t: seq<Entry>, last: nat) {
    && last + 3 < |t| && t[last].mlen >= MINMATCH
    && forall p :: last < p <= last + 3 ==> t[p].price == t[last].price + (p - last) && t[p].mlen == 1 && t[p].litlen == p - last
  }

  // The table before position `cur` is looked at.
  ghost predicate Priced(t: seq<Entry>, llen: nat, offers: map<nat, Match>, cur: nat, last: nat) {
    && 4 <= last && last + 3 < |t| && Starts(t, llen) && Smooth(t, last + 3) && Grows(t, last + 3) && Backed(t, last + 3, offers)
    && Relaxed(t, offers, last + 3) && OffersOk(t, offers, cur, last) && Trails(t, last)
  }

  // ---------------------------------------------------------------- consequences

  lemma {:induction false} SmoothRun(t: seq<Entry>, upto: nat, p: nat, k: nat)
    requires Smooth(t, upto) && 4 <= p && p + k <= upto
    ensures t[p].price <= t[p + k].price <= t[p].price + k
    decreases k
  {
    if k > 0 {
      SmoothRun(t, upto, p, k - 1);
    }
  }

  lemma StartPrices(t: seq<Entry>, llen: nat, c: nat, d: nat)
    requires Starts(t, llen) && c <= d < 4
    ensures t[c].price + (d - c) <= t[d].price <= t[c].price + (d - c) + 1
  {
    LiteralsNext(llen + c, d - c);
  }

  // The fourth position is the first match of four bytes.
  lemma FourthPrice(t: seq<Entry>, llen: nat, offers: map<nat, Match>, cur: nat, last: nat)
    requires Priced(t, llen, offers, cur, last)
    ensures t[4].price == t[0].price + 3
  {
    hide Smooth, Backed, Trails;
    assert RelaxedAt(t, 0, 4);
    assert t[0].price + 3 + 4 / 255 <= t[4].price;
  }

  // Up to three positions on, a price rises by no more than the literals cost.
  lemma NextThree(t: seq<Entry>, llen: nat, offers: map<nat, Match>, cur: nat, last: nat, k: nat)
    requires Priced(t, llen, offers, cur, last) && cur < last && 1 <= k <= 3
    ensures t[cur + k].price <= if cur + k < 4 then LiteralsPrice(llen + cur + k) else t[cur].price + k
  {
    hide Grows, Backed, Relaxed, OffersOk, Trails;
    if cur >= 4 {
      SmoothRun(t, last + 3, cur, k);
    } else if cur + k >= 4 {
      FourthPrice(t, llen, offers, cur, last);
      SmoothRun(t, last + 3, 4, cur + k - 4);
      StartPrices(t, llen, 0, cur);
    }
  }

  // Literals before a new match are never cheaper than what is there.
  lemma NoCheaperLiterals(t: seq<Entry>, llen: nat, offers: map<nat, Match>, cur: nat, last: nat, k: nat)
    requires Priced(t, llen, offers, cur, last) && 1 <= cur < last && 1 <= k <= 3
    ensures t[cur].price - LiteralsPrice(t[cur].litlen) + LiteralsPrice(t[cur].litlen + k) >= t[cur + k].price
  {
    hide Grows, Backed, Relaxed, OffersOk, Trails, Smooth;
    NextThree(t, llen, offers, cur, last, k);
    LiteralsNext(t[cur].litlen, k);
  }

  // What the parser computes for a match of `ml` bytes from `cur`.
  function OfferPrice(t: seq<Entry>, cur: nat, ml: nat): int
    requires cur < |t|
  {
    if t[cur].mlen == 1 then
      (if cur > t[cur].litlen then t[cur - t[cur].litlen].price else 0) + SequencePrice(t[cur].litlen, ml)
    else
      t[cur].price + SequencePrice(0, ml)
  }

  lemma OfferIs(t: seq<Entry>, llen: nat, offers: map<nat, Match>, cur: nat, last: nat, ml: nat)
    requires Priced(t, llen, offers, cur, last) && 1 <= cur < last
    ensures OfferPrice(t, cur, ml) == t[cur].price + 3 + Ext(ml)
  {
    hide Grows, Smooth, Relaxed, OffersOk, Trails, Ext;
    if cur >= 4 {
      assert FromLiteral(t, cur) || FromMatch(t, cur, offers);
    }
  }

  // ---------------------------------------------------------------- the first match

  // A match of every length from position 0.
  ghost predicate FirstLengths(t: seq<Entry>, llen: nat, m: Match) {
    m.len < |t| && forall p :: 4 <= p <= m.len ==> t[p].price == SequencePrice(llen, p) && t[p].mlen == p && t[p].off == m.off
  }

  lemma FirstPriced(t: seq<Entry>, llen: nat, m: Match)
    requires MINMATCH <= m.len && m.len + 3 < |t| && Starts(t, llen) && Trails(t, m.len) && FirstLengths(t, llen, m)
    ensures Priced(t, llen, map[0 := m], 1, m.len)
  {
    hide Smooth, Grows, Backed, Trails, Starts, FirstLengths, RelaxedAt;
    FirstSmooth(t, llen, m);
    FirstGrows(t, llen, m);
    FirstBacked(t, llen, m);
    var offers := map[0 := m];
    assert 0 in offers && 0 + offers[0].len == m.len;
  }

  lemma FirstBacked(t: seq<Entry>, llen: nat, m: Match)
    requires MINMATCH <= m.len && m.len + 3 < |t| && Starts(t, llen) && Trails(t, m.len) && FirstLengths(t, llen, m)
    ensures Backed(t, m.len + 3, map[0 := m])
    ensures forall ml :: MINMATCH <= ml <= m.len ==> RelaxedAt(t, 0, ml)
  {
    hide Ext, LiteralsPrice;
    forall p | 4 <= p <= m.len + 3
      ensures FromLiteral(t, p) || FromMatch(t, p, map[0 := m])
    {
    }
    forall ml | MINMATCH <= ml <= m.len
      ensures RelaxedAt(t, 0, ml)
    {
    }
  }

  lemma FirstSmooth(t: seq<Entry>, llen: nat, m: Match)
    requires MINMATCH <= m.len && m.len + 3 < |t| && Trails(t, m.len) && FirstLengths(t, llen, m)
    ensures Smooth(t, m.len + 3)
  {
    hide Ext, LiteralsPrice;
    forall p | 4 <= p < m.len + 3
      ensures t[p].price <= t[p + 1].price <= t[p].price + 1
    {
      ExtNext(p);
    }
  }

  lemma FirstGrows(t: seq<Entry>, llen: nat, m: Match)
    requires MINMATCH <= m.len && m.len + 3 < |t| && Starts(t, llen) && Trails(t, m.len) && FirstLengths(t, llen, m)
    ensures Grows(t, m.len + 3)
  {
    hide Ext, LiteralsPrice;
    forall x, y | 4 <= x <= y <= m.len
      ensures t[x].price + (y - x) / 255 <= t[y].price
    {
      ExtMore(x, y - x);
    }
    forall y | 4 <= y <= m.len
      ensures t[0].price + 3 + y / 255 <= t[y].price
    {
      ExtMore(0, y);
    }
    GrowsOn(t, m.len);
  }

  // Three more positions, each dearer by one.
  lemma GrowsOn(t: seq<Entry>, last: nat)
    requires last >= 4 && Trails(t, last) && Grows(t, last)
    ensures Grows(t, last + 3)
  {
    forall x, y | 4 <= x <= y <= last + 3
      ensures t[x].price + (y - x) / 255 <= t[y].price
    {
      if x <= last < y {
        assert t[x].price + (last - x) / 255 <= t[last].price;
      }
    }
    assert t[0].price + 3 + last / 255 <= t[last].price;
  }

  // ---------------------------------------------------------------- another match

  // The price of position `p` by the match from `c`.
  ghost function Offer(t: seq<Entry>, c: nat, p: nat): int
    requires c <= p && c < |t|
  {
    t[c].price + 3 + Ext(p - c)
  }

  lemma OfferNext(t: seq<Entry>, c: nat, p: nat)
    requires c <= p && c < |t|
    ensures Offer(t, c, p) <= Offer(t, c, p + 1) <= Offer(t, c, p) + 1
  {
    hide Ext;
    ExtNext(p - c);
  }

  // Whether the match from `c` takes the place of what is at `p`.
  ghost predicate Taken(t: seq<Entry>, c: nat, m: Match, last: nat, fav: nat, p: nat)
    requires last + 3 < |t| && c < |t|
  {
    c + MINMATCH <= p <= c + m.len && (p > last + 3 || Offer(t, c, p) <= t[p].price - fav)
  }

  // The table with every length of the match `m` at `c` offered, and three literals after the last.
  ghost predicate Updated(t: seq<Entry>, u: seq<Entry>, c: nat, m: Match, last: nat, next: nat, fav: nat) {
    && |u| == |t| && c < last && last + 3 < |t| && next + 3 < |t| && MINMATCH <= m.len
    && next == (if c + m.len > last && Taken(t, c, m, last, fav, c + m.len) then c + m.len else last)
    && (forall p :: 0 <= p <= next && !Taken(t, c, m, last, fav, p) ==> u[p] == t[p])
    && (forall p :: 0 <= p <= next && Taken(t, c, m, last, fav, p) ==> u[p].price == Offer(t, c, p) && u[p].mlen == p - c && u[p].off == m.off)
    && Trails(u, next)
  }

  // A position before the fourth is searched only if the fourth is no cheaper.
  ghost predicate Searched(t: seq<Entry>, c: nat) {
    c < |t| && 0 < |t| && (c < 4 ==> t[c].price <= t[0].price + 3)
  }

  // Everything a step starts from.
  ghost predicate Ready(t: seq<Entry>, llen: nat, offers: map<nat, Match>, c: nat, last: nat, u: seq<Entry>, m: Match, next: nat, fav: nat) {
    Priced(t, llen, offers, c, last) && 1 <= c < last && Searched(t, c) && Updated(t, u, c, m, last, next, fav) && fav <= 1
  }

  // The price of a position after the step.
  lemma NewPrice(t: seq<Entry>, llen: nat, offers: map<nat, Match>, c: nat, last: nat, u: seq<Entry>, m: Match, next: nat, fav: nat, p: nat)
    requires Ready(t, llen, offers, c, last, u, m, next, fav) && p <= next
    ensures
      if c + MINMATCH <= p <= c + m.len then
        (if p <= last + 3 then u[p].price == Min(t[p].price, Offer(t, c, p)) else u[p].price == Offer(t, c, p))
      else u[p] == t[p]
    ensures p > last ==> next == c + m.len
  {
    hide Priced, Trails, Ext;
  }

  lemma ReadyShape(t: seq<Entry>, llen: nat, offers: map<nat, Match>, c: nat, last: nat, u: seq<Entry>, m: Match, next: nat, fav: nat)
    requires Ready(t, llen, offers, c, last, u, m, next, fav)
    ensures |u| == |t| && last + 3 < |t| && next + 3 < |t| && last <= next && 4 <= last && MINMATCH <= m.len
    ensures next == last || (last < next == c + m.len)
    ensures Starts(t, llen) && Smooth(t, last + 3) && Grows(t, last + 3) && Trails(t, last) && Trails(u, next) && 1 <= c < last && fav <= 1
  {
    hide Starts, Smooth, Grows, Trails, Taken, Backed, Relaxed, OffersOk;
  }

  // From an earlier match to the next position looked at, prices grow.
  lemma Ahead(t: seq<Entry>, llen: nat, offers: map<nat, Match>, c: nat, last: nat, e: nat)
    requires Priced(t, llen, offers, c, last) && 1 <= c <= last && e in offers
    ensures e < c && t[e].price + (c - e) / 255 <= t[c].price
  {
    hide Smooth, Backed, Relaxed, Trails, LiteralsPrice;
    if e < 4 && c < 4 {
      StartPrices(t, llen, e, c);
    }
  }

  // From the position looked at to the last one as well.
  lemma AheadToLast(t: seq<Entry>, llen: nat, offers: map<nat, Match>, c: nat, last: nat)
    requires Priced(t, llen, offers, c, last) && 1 <= c < last && Searched(t, c)
    ensures t[c].price + (last - c) / 255 <= t[last].price
  {
    hide Smooth, Backed, Relaxed, Trails, Starts, OffersOk;
  }

  // A position behind the new match is at most one dearer than the end of the match.
  lemma BehindMatch(t: seq<Entry>, llen: nat, offers: map<nat, Match>, c: nat, last: nat, b: nat)
    requires Priced(t, llen, offers, c, last) && 1 <= c && c + MINMATCH <= b < last
    ensures t[b + 1].price <= Offer(t, c, b) + 1
  {
    hide Smooth, Backed, Grows, Trails, Starts, Ext;
    var e :| e in offers && e + offers[e].len == last;
    Ahead(t, llen, offers, c, last, e);
    assert RelaxedAt(t, e, b + 1 - e);
    ExtMore(b - c, c - e);
    assert b - c + (c - e) + 1 == b + 1 - e;
  }

  // The first position behind the table.
  lemma BehindTable(t: seq<Entry>, llen: nat, offers: map<nat, Match>, c: nat, last: nat)
    requires Priced(t, llen, offers, c, last) && 1 <= c < last && Searched(t, c)
    ensures Offer(t, c, last + 4) <= t[last].price + 4
  {
    hide Priced;
    AheadToLast(t, llen, offers, c, last);
    PricedShape(t, llen, offers, c, last);
    ExtIs(last + 4 - c);
  }

  lemma PricedShape(t: seq<Entry>, llen: nat, offers: map<nat, Match>, c: nat, last: nat)
    requires Priced(t, llen, offers, c, last)
    ensures 4 <= last && last + 3 < |t| && Smooth(t, last + 3) && Grows(t, last + 3) && Trails(t, last) && Starts(t, llen)
  {
    hide Smooth, Grows, Trails, Starts, Backed, Relaxed, OffersOk;
  }

  lemma StepSmooth(t: seq<Entry>, llen: nat, offers: map<nat, Match>, c: nat, last: nat, u: seq<Entry>, m: Match, next: nat, fav: nat)
    requires Ready(t, llen, offers, c, last, u, m, next, fav)
    ensures Smooth(u, next + 3)
  {
    hide Ready, Smooth, Grows, Trails, Starts, Offer;
    ReadyShape(t, llen, offers, c, last, u, m, next, fav);
    forall p | 4 <= p < next + 3
      ensures u[p].price <= u[p + 1].price <= u[p].price + 1
    {
      if p < next {
        StepSmoothAt(t, llen, offers, c, last, u, m, next, fav, p);
      } else {
        TrailsAt(u, next, p);
      }
    }
    SmoothIs(u, next + 3);
  }

  lemma SmoothIs(t: seq<Entry>, upto: nat)
    ensures Smooth(t, upto) <==> upto < |t| && forall p :: 4 <= p < upto ==> t[p].price <= t[p + 1].price <= t[p].price + 1
  {
  }

  lemma SmoothAt(t: seq<Entry>, upto: nat, p: nat)
    requires Smooth(t, upto) && 4 <= p < upto
    ensures t[p].price <= t[p + 1].price <= t[p].price + 1
  {
  }

  lemma TrailsAt(t: seq<Entry>, last: nat, p: nat)
    requires Trails(t, last) && last <= p < last + 3
    ensures t[p + 1].price == t[p].price + 1
  {
  }

  lemma StepSmoothAt(t: seq<Entry>, llen: nat, offers: map<nat, Match>, c: nat, last: nat, u: seq<Entry>, m: Match, next: nat, fav: nat, p: nat)
    requires Ready(t, llen, offers, c, last, u, m, next, fav) && 4 <= p < next
    ensures u[p].price <= u[p + 1].price <= u[p].price + 1
  {
    hide Updated, Priced, Smooth, Grows, Trails, Starts, Offer;
    ReadyShape(t, llen, offers, c, last, u, m, next, fav);
    NewPrice(t, llen, offers, c, last, u, m, next, fav, p);
    NewPrice(t, llen, offers, c, last, u, m, next, fav, p + 1);
    if p < last + 3 {
      SmoothAt(t, last + 3, p);
    }
    if p >= c {
      OfferNext(t, c, p);
    }
    if p + 1 == c + MINMATCH {
      BeforeOffer(t, llen, offers, c, last);
    } else if p == c + m.len {
      BehindMatch(t, llen, offers, c, last, p);
    } else if p == last + 3 {
      BehindTable(t, llen, offers, c, last);
      TrailPrice(t, last);
    }
  }

  lemma TrailPrice(t: seq<Entry>, last: nat)
    requires Trails(t, last)
    ensures forall p :: last < p <= last + 3 ==> t[p].price == t[last].price + (p - last)
  {
  }

  // Where the match begins to count.
  lemma BeforeOffer(t: seq<Entry>, llen: nat, offers: map<nat, Match>, c: nat, last: nat)
    requires Priced(t, llen, offers, c, last) && 1 <= c < last
    ensures t[c + 3].price <= Offer(t, c, c + MINMATCH)
  {
    hide Priced;
    NextThree(t, llen, offers, c, last, 3);
    PricedShape(t, llen, offers, c, last);
  }

  // No price rises.
  lemma NotDearer(t: seq<Entry>, llen: nat, offers: map<nat, Match>, c: nat, last: nat, u: seq<Entry>, m: Match, next: nat, fav: nat, p: nat)
    requires Ready(t, llen, offers, c, last, u, m, next, fav) && p <= last + 3
    ensures u[p].price <= t[p].price
  {
    hide Updated, Priced, Smooth, Grows, Trails, Starts, Offer;
    ReadyShape(t, llen, offers, c, last, u, m, next, fav);
    if p <= next {
      NewPrice(t, llen, offers, c, last, u, m, next, fav, p);
    } else {
      NewPrice(t, llen, offers, c, last, u, m, next, fav, next);
      TrailPrice(t, last);
      TrailPrice(u, next);
      if next > last {
        TrailPrice(t, last);
      }
    }
  }

  lemma StepGrows(t: seq<Entry>, llen: nat, offers: map<nat, Match>, c: nat, last: nat, u: seq<Entry>, m: Match, next: nat, fav: nat)
    requires Ready(t, llen, offers, c, last, u, m, next, fav)
    ensures Grows(u, next + 3)
  {
    hide Ready, Smooth, Grows, Trails, Starts, Offer;
    ReadyShape(t, llen, offers, c, last, u, m, next, fav);
    forall x, y | 4 <= x <= y <= next
      ensures u[x].price + (y - x) / 255 <= u[y].price
    {
      StepGrowsAt(t, llen, offers, c, last, u, m, next, fav, x, y);
    }
    forall y | 4 <= y <= next
      ensures u[0].price + 3 + y / 255 <= u[y].price
    {
      StepAbove(t, llen, offers, c, last, u, m, next, fav, y);
    }
    GrowsIs(u, next);
    GrowsOn(u, next);
  }

  lemma GrowsIs(t: seq<Entry>, upto: nat)
    ensures Grows(t, upto) <==>
      && upto < |t|
      && (forall x, y :: 4 <= x <= y <= upto ==> t[x].price + (y - x) / 255 <= t[y].price)
      && (forall y :: 4 <= y <= upto ==> t[0].price + 3 + y / 255 <= t[y].price)
  {
  }

  lemma GrowsAt(t: seq<Entry>, upto: nat, x: nat, y: nat)
    requires Grows(t, upto) && 4 <= x <= y <= upto
    ensures t[x].price + (y - x) / 255 <= t[y].price && t[0].price + 3 + y / 255 <= t[y].price
  {
  }

  lemma StepGrowsAt(t: seq<Entry>, llen: nat, offers: map<nat, Match>, c: nat, last: nat, u: seq<Entry>, m: Match, next: nat, fav: nat,
                    x: nat, y: nat)
    requires Ready(t, llen, offers, c, last, u, m, next, fav) && 4 <= x <= y <= next
    ensures u[x].price + (y - x) / 255 <= u[y].price
  {
    hide Updated, Priced, Smooth, Grows, Trails, Starts, Ext;
    ReadyShape(t, llen, offers, c, last, u, m, next, fav);
    NewPrice(t, llen, offers, c, last, u, m, next, fav, x);
    NewPrice(t, llen, offers, c, last, u, m, next, fav, y);
    if y <= last + 3 {
      GrowsAt(t, last + 3, x, y);
    }
    if c + MINMATCH <= y <= c + m.len {
      if c <= x {
        ExtMore(x - c, y - x);
        if x < c + MINMATCH {
          NearOffer(t, llen, offers, c, last, x);
          ExtMore(0, y - c);
        }
      } else {
        GrowsAt(t, last + 3, x, c);
        ExtMore(0, y - c);
        Sum255(c - x, y - c);
      }
    }
  }

  lemma Sum255(a: nat, b: nat)
    ensures (a + b) / 255 <= a / 255 + b / 255 + 1
  {
  }

  // Just after `c` prices are no higher than those of a match.
  lemma NearOffer(t: seq<Entry>, llen: nat, offers: map<nat, Match>, c: nat, last: nat, x: nat)
    requires Priced(t, llen, offers, c, last) && 1 <= c < last && c <= x < c + MINMATCH && 4 <= x
    ensures t[x].price <= t[c].price + 3
  {
    hide Priced;
    PricedShape(t, llen, offers, c, last);
    if x > c {
      NextThree(t, llen, offers, c, last, x - c);
    }
  }

  lemma StepAbove(t: seq<Entry>, llen: nat, offers: map<nat, Match>, c: nat, last: nat, u: seq<Entry>, m: Match, next: nat, fav: nat, y: nat)
    requires Ready(t, llen, offers, c, last, u, m, next, fav) && 4 <= y <= next
    ensures u[0].price + 3 + y / 255 <= u[y].price
  {
    hide Updated, Priced, Smooth, Grows, Trails, Ext, LiteralsPrice;
    ReadyShape(t, llen, offers, c, last, u, m, next, fav);
    NewPrice(t, llen, offers, c, last, u, m, next, fav, 0);
    NewPrice(t, llen, offers, c, last, u, m, next, fav, y);
    if y <= last + 3 {
      GrowsAt(t, last + 3, y, y);
    }
    if c + MINMATCH <= y <= c + m.len {
      ExtIs(y - c);
      if c < 4 {
        StartPrices(t, llen, 0, c);
      } else {
        GrowsAt(t, last + 3, c, c);
        Sum255(c, y - c);
      }
    }
  }

  lemma StepBacked(t: seq<Entry>, llen: nat, offers: map<nat, Match>, c: nat, last: nat, u: seq<Entry>, m: Match, next: nat, fav: nat)
    requires Ready(t, llen, offers, c, last, u, m, next, fav)
    ensures Backed(u, next + 3, offers[c := m])
  {
    hide Ready, Smooth, Grows, Trails, Starts, FromLiteral, FromMatch;
    ReadyShape(t, llen, offers, c, last, u, m, next, fav);
    forall p | 4 <= p <= next + 3
      ensures FromLiteral(u, p) || FromMatch(u, p, offers[c := m])
    {
      if p <= next {
        StepBackedAt(t, llen, offers, c, last, u, m, next, fav, p);
      } else {
        TrailBacked(u, next, p);
      }
    }
  }

  lemma TrailBacked(t: seq<Entry>, last: nat, p: nat)
    requires Trails(t, last) && 4 <= last < p <= last + 3
    ensures FromLiteral(t, p)
  {
  }

  lemma StepBackedAt(t: seq<Entry>, llen: nat, offers: map<nat, Match>, c: nat, last: nat, u: seq<Entry>, m: Match, next: nat, fav: nat, p: nat)
    requires Ready(t, llen, offers, c, last, u, m, next, fav) && 4 <= p <= next
    ensures FromLiteral(u, p) || FromMatch(u, p, offers[c := m])
  {
    hide Priced, Smooth, Grows, Trails, Starts, Ext;
    ReadyShape(t, llen, offers, c, last, u, m, next, fav);
    NewPrice(t, llen, offers, c, last, u, m, next, fav, c);
    if !Taken(t, c, m, last, fav, p) {
      BackedAt(t, llen, offers, c, last, p);
      if t[p].mlen == 1 {
        var v := p - t[p].litlen;
        StepSmooth(t, llen, offers, c, last, u, m, next, fav);
        SmoothRun(u, next + 3, v, p - v);
        NotDearer(t, llen, offers, c, last, u, m, next, fav, v);
      } else {
        OfferedBefore(t, llen, offers, c, last, p - t[p].mlen);
        NewPrice(t, llen, offers, c, last, u, m, next, fav, p - t[p].mlen);
      }
    }
  }

  lemma OfferedBefore(t: seq<Entry>, llen: nat, offers: map<nat, Match>, c: nat, last: nat, x: nat)
    requires Priced(t, llen, offers, c, last) && x in offers
    ensures x < c
  {
    hide Smooth, Grows, Trails, Starts, Relaxed, Backed;
  }

  lemma BackedAt(t: seq<Entry>, llen: nat, offers: map<nat, Match>, c: nat, last: nat, p: nat)
    requires Priced(t, llen, offers, c, last) && 4 <= p <= last + 3
    ensures FromLiteral(t, p) || FromMatch(t, p, offers)
  {
    hide Smooth, Grows, Trails, Starts, Relaxed, OffersOk, FromLiteral, FromMatch;
  }

  lemma StepRelaxed(t: seq<Entry>, llen: nat, offers: map<nat, Match>, c: nat, last: nat, u: seq<Entry>, m: Match, next: nat, fav: nat)
    requires Ready(t, llen, offers, c, last, u, m, next, fav)
    ensures Relaxed(u, offers[c := m], next + 3)
  {
    hide Ready, Smooth, Grows, Trails, Starts;
    ReadyShape(t, llen, offers, c, last, u, m, next, fav);
    var all := offers[c := m];
    forall x | x in all
      ensures RelaxedFrom(u, x, all[x].len, next + 3)
    {
      StepRelaxedFrom(t, llen, offers, c, last, u, m, next, fav, x);
    }
  }

  lemma StepRelaxedFrom(t: seq<Entry>, llen: nat, offers: map<nat, Match>, c: nat, last: nat, u: seq<Entry>, m: Match, next: nat, fav: nat,
                        x: nat)
    requires Ready(t, llen, offers, c, last, u, m, next, fav) && (x == c || x in offers)
    ensures RelaxedFrom(u, x, (if x == c then m else offers[x]).len, next + 3)
  {
    hide Ready, RelaxedAt;
    var len := (if x == c then m else offers[x]).len;
    forall ml: nat | MINMATCH <= ml <= len
      ensures RelaxedAt(u, x, ml)
    {
      if x == c {
        StepRelaxedHere(t, llen, offers, c, last, u, m, next, fav, ml);
      } else {
        StepRelaxedAt(t, llen, offers, c, last, u, m, next, fav, x, ml);
      }
    }
    ReadyShape(t, llen, offers, c, last, u, m, next, fav);
    if x == c {
      StepRelaxedHere(t, llen, offers, c, last, u, m, next, fav, len);
    } else {
      OfferedLength(t, llen, offers, c, last, u, m, next, fav, x);
    }
  }

  lemma OfferedLength(t: seq<Entry>, llen: nat, offers: map<nat, Match>, c: nat, last: nat, u: seq<Entry>, m: Match, next: nat, fav: nat,
                      x: nat)
    requires Ready(t, llen, offers, c, last, u, m, next, fav) && x in offers
    ensures x + offers[x].len <= last + 3
  {
    hide Updated, Smooth, Grows, Trails, Starts, Backed, OffersOk;
    assert RelaxedFrom(t, x, offers[x].len, last + 3);
  }

  lemma StepRelaxedAt(t: seq<Entry>, llen: nat, offers: map<nat, Match>, c: nat, last: nat, u: seq<Entry>, m: Match, next: nat, fav: nat,
                      x: nat, ml: nat)
    requires Ready(t, llen, offers, c, last, u, m, next, fav) && x in offers && MINMATCH <= ml <= offers[x].len
    ensures x + ml <= next + 3 && RelaxedAt(u, x, ml)
  {
    hide Updated, Smooth, Grows, Trails, Starts, Backed, Ext;
    ReadyShape(t, llen, offers, c, last, u, m, next, fav);
    assert RelaxedAt(t, x, ml);
    NotDearer(t, llen, offers, c, last, u, m, next, fav, x + ml);
    NewPrice(t, llen, offers, c, last, u, m, next, fav, x);
  }

  lemma StepRelaxedHere(t: seq<Entry>, llen: nat, offers: map<nat, Match>, c: nat, last: nat, u: seq<Entry>, m: Match, next: nat, fav: nat, ml: nat)
    requires Ready(t, llen, offers, c, last, u, m, next, fav) && MINMATCH <= ml <= m.len
    ensures c + ml <= next + 3 && RelaxedAt(u, c, ml)
  {
    hide Priced, Smooth, Grows, Trails, Starts, Ext;
    ReadyShape(t, llen, offers, c, last, u, m, next, fav);
    NewPrice(t, llen, offers, c, last, u, m, next, fav, c);
    var p, b := c + ml, c + m.len;
    if p <= next {
      NewPrice(t, llen, offers, c, last, u, m, next, fav, p);
    } else {
      TrailPrice(t, last);
      TrailPrice(u, next);
      NotDearer(t, llen, offers, c, last, u, m, next, fav, last);
      ExtMore(ml, m.len - ml);
    }
  }

  lemma StepOffers(t: seq<Entry>, llen: nat, offers: map<nat, Match>, c: nat, last: nat, u: seq<Entry>, m: Match, next: nat, fav: nat)
    requires Ready(t, llen, offers, c, last, u, m, next, fav)
    ensures OffersOk(u, offers[c := m], c + 1, next)
  {
    hide Updated, Smooth, Grows, Trails, Starts, Backed, Relaxed;
    ReadyShape(t, llen, offers, c, last, u, m, next, fav);
    var more := offers[c := m];
    NewPrice(t, llen, offers, c, last, u, m, next, fav, 0);
    forall x | x in more
      ensures x < c + 1 && x < |u| && more[x].len >= MINMATCH && (x < 4 ==> u[x].price <= u[0].price + 3)
    {
      NewPrice(t, llen, offers, c, last, u, m, next, fav, x);
    }
    if next == last {
      var e :| e in offers && e + offers[e].len == last;
      assert e in more && e + more[e].len == next;
    } else {
      assert c in more && c + more[c].len == next;
    }
  }

  // A step keeps all of it.
  lemma StepPriced(t: seq<Entry>, llen: nat, offers: map<nat, Match>, c: nat, last: nat, u: seq<Entry>, m: Match, next: nat, fav: nat)
    requires Ready(t, llen, offers, c, last, u, m, next, fav)
    ensures Priced(u, llen, offers[c := m], c + 1, next)
  {
    hide Ready, Smooth, Grows, Backed, Relaxed, OffersOk, Trails;
    ReadyShape(t, llen, offers, c, last, u, m, next, fav);
    StepSmooth(t, llen, offers, c, last, u, m, next, fav);
    StepGrows(t, llen, offers, c, last, u, m, next, fav);
    StepBacked(t, llen, offers, c, last, u, m, next, fav);
    StepRelaxed(t, llen, offers, c, last, u, m, next, fav);
    StepOffers(t, llen, offers, c, last, u, m, next, fav);
    forall p | 0 <= p < 4
      ensures u[p] == t[p]
    {
      NewPrice(t, llen, offers, c, last, u, m, next, fav, p);
    }
  }

  // So does a position without a new match.
  lemma SkipPriced(t: seq<Entry>, llen: nat, offers: map<nat, Match>, c: nat, last: nat)
    requires Priced(t, llen, offers, c, last)
    ensures Priced(t, llen, offers, c + 1, last)
  {
    hide Smooth, Grows, Relaxed, Trails, Starts, Backed;
    forall x | x in offers
      ensures x < c + 1 && x < |t| && offers[x].len >= MINMATCH && (x < 4 ==> t[x].price <= t[0].price + 3)
    {
    }
  }

  // A position is not searched when the next one costs no more (and, in a full update, the price
  // does not rise sharply after it).
  predicate Skip(price: int, next: int, fourth: int, fullUpdate: bool) {
    if fullUpdate then next <= price && fourth < price + 3 else next <= price
  }

  lemma SearchedIs(t: seq<Entry>, llen: nat, offers: map<nat, Match>, c: nat, last: nat, fullUpdate: bool)
    requires Priced(t, llen, offers, c, last) && 1 <= c < last
    requires !Skip(t[c].price, t[c + 1].price, t[c + 4].price, fullUpdate)
    ensures Searched(t, c)
  {
    hide Grows, Relaxed, Backed, OffersOk, Trails, LiteralsPrice;
    if c < 4 {
      FourthPrice(t, llen, offers, c, last);
      StartPrices(t, llen, 0, c);
      if c == 3 {
        SmoothRun(t, last + 3, 4, 3);
      }
    }
  }

  // ---------------------------------------------------------------- ways through the segment

  // A step: a literal (length 1) or a match.
  datatype Hop = Hop(mlen: nat, off: nat)

  ghost function Length(hops: seq<Hop>): nat {
    if hops == [] then 0 else Length(hops[..|hops| - 1]) + hops[|hops| - 1].mlen
  }

  // The literals not yet part of a sequence, when `pend` were open at the start.
  ghost function Open(hops: seq<Hop>, pend: nat): nat {
    if hops == [] then pend
    else if hops[|hops| - 1].mlen == 1 then Open(hops[..|hops| - 1], pend) + 1 else 0
  }

  // The size of the sequences of these steps.
  ghost function Paid(hops: seq<Hop>, pend: nat): nat {
    if hops == [] then 0
    else
      var init, h := hops[..|hops| - 1], hops[|hops| - 1];
      Paid(init, pend) + if h.mlen == 1 then 0 else SequencePrice(Open(init, pend), h.mlen)
  }

  ghost function Cost(hops: seq<Hop>, pend: nat): nat {
    Paid(hops, pend) + LiteralsPrice(Open(hops, pend))
  }

  lemma OneMore(hops: seq<Hop>, h: Hop, pend: nat)
    ensures Length(hops + [h]) == Length(hops) + h.mlen
    ensures Open(hops + [h], pend) == if h.mlen == 1 then Open(hops, pend) + 1 else 0
    ensures Paid(hops + [h], pend) == Paid(hops, pend) + if h.mlen == 1 then 0 else SequencePrice(Open(hops, pend), h.mlen)
  {
    assert (hops + [h])[..|hops|] == hops && (hops + [h])[|hops|] == h;
  }

  // The way the table holds to position `p`.
  ghost function Back(t: seq<Entry>, p: nat): seq<Hop>
    decreases p
  {
    if p == 0 || p >= |t| || t[p].mlen < 1 || t[p].mlen > p then []
    else Back(t, p - t[p].mlen) + [Hop(t[p].mlen, t[p].off)]
  }

  lemma {:induction false} OpenRun(t: seq<Entry>, v: nat, p: nat, pend: nat)
    requires 4 <= v <= p < |t| && t[v].mlen >= MINMATCH && forall q :: v <= q <= p ==> 1 <= t[q].mlen <= q
    ensures Open(Back(t, p), pend) <= p - v
    decreases p
  {
    OneMore(Back(t, p - t[p].mlen), Hop(t[p].mlen, t[p].off), pend);
    if v < p && t[p].mlen == 1 {
      OpenRun(t, v, p - 1, pend);
    }
  }

  lemma BackIs(t: seq<Entry>, p: nat)
    requires 0 < p < |t| && 1 <= t[p].mlen <= p
    ensures Back(t, p) == Back(t, p - t[p].mlen) + [Hop(t[p].mlen, t[p].off)]
  {
  }

  lemma NoHops(t: seq<Entry>, pend: nat)
    ensures Back(t, 0) == [] && Length([]) == 0 && Open([], pend) == pend && Paid([], pend) == 0
  {
  }

  // Every price is the size of the way it stands for.
  lemma {:induction false} PriceIsCost(t: seq<Entry>, llen: nat, offers: map<nat, Match>, cur: nat, last: nat, p: nat)
    requires Priced(t, llen, offers, cur, last) && p <= last + 3
    ensures Length(Back(t, p)) == p && Cost(Back(t, p), llen) == t[p].price
    decreases p
  {
    hide Priced, Ext, Smooth, Grows, Trails, Length, Open, Paid, Back;
    PricedShape(t, llen, offers, cur, last);
    if p == 0 {
      NoHops(t, llen);
    } else {
      StepBack(t, llen, offers, cur, last, p);
      BackIs(t, p);
      PriceIsCost(t, llen, offers, cur, last, p - t[p].mlen);
      OneMore(Back(t, p - t[p].mlen), Hop(t[p].mlen, t[p].off), llen);
      if p < 4 {
        EarlyOpen(t, llen, p - 1);
      } else if t[p].mlen == 1 {
        LateOpen(t, llen, offers, cur, last, p);
        LiteralsNext(Open(Back(t, p - 1), llen), 1);
      }
    }
  }

  lemma StepBack(t: seq<Entry>, llen: nat, offers: map<nat, Match>, cur: nat, last: nat, p: nat)
    requires Priced(t, llen, offers, cur, last) && 1 <= p <= last + 3
    ensures p < |t| && 1 <= t[p].mlen <= p
    ensures 4 <= p && t[p].mlen != 1 ==> t[p].price == t[p - t[p].mlen].price + 3 + Ext(t[p].mlen)
    ensures p < 4 ==> t[p].mlen == 1
  {
    hide Smooth, Grows, Trails, Relaxed, OffersOk, Ext;
    if p >= 4 {
      assert FromLiteral(t, p) || FromMatch(t, p, offers);
    }
  }

  lemma {:induction false} EarlyOpen(t: seq<Entry>, llen: nat, p: nat)
    requires Starts(t, llen) && p < 4
    ensures Open(Back(t, p), llen) == llen + p && Paid(Back(t, p), llen) == 0
    decreases p
  {
    if p > 0 {
      EarlyOpen(t, llen, p - 1);
      OneMore(Back(t, p - 1), Hop(1, t[p].off), llen);
    }
  }

  // A literal behind a match: few are open, and it costs one byte.
  lemma LateOpen(t: seq<Entry>, llen: nat, offers: map<nat, Match>, cur: nat, last: nat, p: nat)
    requires Priced(t, llen, offers, cur, last) && 4 <= p <= last + 3 && t[p].mlen == 1
    ensures p > 4 && Open(Back(t, p - 1), llen) < 3 && t[p].price == t[p - 1].price + 1
  {
    hide Priced, Ext, Grows, Trails, Starts, Smooth;
    PricedShape(t, llen, offers, cur, last);
    BackedAt(t, llen, offers, cur, last, p);
    var v := p - t[p].litlen;
    forall q | v <= q <= p - 1
      ensures 1 <= t[q].mlen <= q
    {
      StepBack(t, llen, offers, cur, last, q);
    }
    OpenRun(t, v, p - 1, llen);
    SmoothRun(t, last + 3, v, p - 1 - v);
    SmoothRun(t, last + 3, p - 1, 1);
  }

  // ---------------------------------------------------------------- no cheaper way

  // Literals, and matches that were offered where they start, cut to any length.
  ghost predicate Allowed(hops: seq<Hop>, offers: map<nat, Match>) {
    hops == [] ||
    var init, h := hops[..|hops| - 1], hops[|hops| - 1];
    && Allowed(init, offers)
    && (h.mlen == 1 || (Length(init) in offers && MINMATCH <= h.mlen <= offers[Length(init)].len))
  }

  lemma {:induction false} Cheapest(t: seq<Entry>, llen: nat, offers: map<nat, Match>, cur: nat, last: nat, hops: seq<Hop>)
    requires Priced(t, llen, offers, cur, last) && Allowed(hops, offers) && Length(hops) <= last + 3
    ensures t[Length(hops)].price <= Cost(hops, llen)
    decreases |hops|
  {
    hide Priced, Ext, LiteralsPrice;
    PricedShape(t, llen, offers, cur, last);
    if hops != [] {
      var init, h := hops[..|hops| - 1], hops[|hops| - 1];
      var q := Length(init);
      Cheapest(t, llen, offers, cur, last, init);
      LiteralsNext(Open(init, llen), 1);
      if h.mlen != 1 {
        OfferedStep(t, llen, offers, cur, last, q, h.mlen);
        NoLiteralsPrice();
      } else if q >= 4 {
        SmoothRun(t, last + 3, q, 1);
      } else {
        EarlyWays(init, offers, llen);
        if q == 3 {
          FourthPrice(t, llen, offers, cur, last);
          LiteralsNext(llen, 4);
        }
      }
    }
  }

  lemma NoLiteralsPrice()
    ensures LiteralsPrice(0) == 0
  {
  }

  lemma OfferedStep(t: seq<Entry>, llen: nat, offers: map<nat, Match>, cur: nat, last: nat, c: nat, ml: nat)
    requires Priced(t, llen, offers, cur, last) && c in offers && MINMATCH <= ml <= offers[c].len
    ensures c + ml < |t| && t[c + ml].price <= t[c].price + 3 + Ext(ml)
  {
    hide Smooth, Grows, Trails, Starts, Backed, Ext;
    assert RelaxedAt(t, c, ml);
  }

  lemma {:induction false} EarlyWays(hops: seq<Hop>, offers: map<nat, Match>, llen: nat)
    requires Allowed(hops, offers) && Length(hops) < 4
    ensures Open(hops, llen) == llen + Length(hops) && Paid(hops, llen) == 0
    decreases |hops|
  {
    if hops != [] {
      EarlyWays(hops[..|hops| - 1], offers, llen);
    }
  }

  // The way in the table is one of them.
  lemma {:induction false} BackAllowed(t: seq<Entry>, llen: nat, offers: map<nat, Match>, cur: nat, last: nat, p: nat)
    requires Priced(t, llen, offers, cur, last) && p <= last + 3
    ensures Allowed(Back(t, p), offers) && Length(Back(t, p)) == p
    decreases p
  {
    hide Priced, Ext;
    PricedShape(t, llen, offers, cur, last);
    if p > 0 {
      StepBack(t, llen, offers, cur, last, p);
      var q, h := p - t[p].mlen, Hop(t[p].mlen, t[p].off);
      BackAllowed(t, llen, offers, cur, last, q);
      OneMore(Back(t, q), h, llen);
      assert Back(t, p)[..|Back(t, p)| - 1] == Back(t, q);
      if t[p].mlen != 1 {
        BackedAt(t, llen, offers, cur, last, p);
      }
    }
  }

  // ---------------------------------------------------------------- first the match, then literals

  ghost function ThenLiterals(m: Match, k: nat): seq<Hop> {
    [Hop(m.len, m.off)] + seq(k, _ => Hop(1, 0))
  }

  lemma {:induction false} ThenLiteralsCost(m: Match, k: nat, offers: map<nat, Match>, llen: nat)
    requires 0 in offers && offers[0] == m && m.len >= MINMATCH
    ensures Allowed(ThenLiterals(m, k), offers) && Length(ThenLiterals(m, k)) == m.len + k
    ensures Cost(ThenLiterals(m, k), llen) == SequencePrice(llen, m.len) + LiteralsPrice(k)
    ensures Open(ThenLiterals(m, k), llen) == k
    decreases k
  {
    hide SequencePrice, LiteralsPrice;
    var w := ThenLiterals(m, k);
    if k == 0 {
      assert w == [] + [Hop(m.len, m.off)];
      OneMore([], Hop(m.len, m.off), llen);
      assert w[..0] == [];
    } else {
      ThenLiteralsCost(m, k - 1, offers, llen);
      var v := ThenLiterals(m, k - 1);
      assert w == v + [Hop(1, 0)];
      OneMore(v, Hop(1, 0), llen);
      assert w[..|w| - 1] == v;
    }
  }
}
