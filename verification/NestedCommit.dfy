// Dirty lists and their merge when a nested transaction commits
// (client/midl.c: mdb_mid2l_search, mdb_mid2l_insert; client/mdb.c:3906-3936).
//
// A dirty list lives in an array: entry 0's `mid` is the count, entries 1 .. count
// are in ascending page order.
module NestedCommit {
  import IdList

  // A page number and the memory that holds the page.
  datatype Id2 = Id2(mid: nat, mptr: nat)

  ghost predicate ListIn(a: array<Id2>)
    reads a
  {
    0 < a.Length && a[0].mid < a.Length
  }

  ghost function Entries(a: array<Id2>): (s: seq<Id2>)
    reads a
    requires ListIn(a)
    ensures |s| == a[0].mid
  {
    a[1..a[0].mid + 1]
  }

  ghost predicate Ascending(s: seq<Id2>) {
    forall i, j :: 0 <= i < j < |s| ==> s[i].mid < s[j].mid
  }

  // Page numbers of data pages: 0 is the sentinel of the merge.
  ghost predicate Positive(s: seq<Id2>) {
    forall i :: 0 <= i < |s| ==> s[i].mid > 0
  }

  // ------------------------------------------------------ search and insert

  /** mdb_mid2l_search: the first place whose page is not below `id`. */
  method Search(ids: array<Id2>, id: nat) returns (cursor: nat)
    requires ListIn(ids) && Ascending(Entries(ids))
    ensures 1 <= cursor <= ids[0].mid + 1
    ensures forall k :: 1 <= k < cursor ==> ids[k].mid < id
    ensures forall k :: cursor <= k <= ids[0].mid ==> id <= ids[k].mid
  {
    var base, n, val := 0, ids[0].mid, 0;
    cursor := 1;
    assert forall k :: 1 <= k <= ids[0].mid ==> ids[k] == Entries(ids)[k - 1];
    assert forall k, l :: 1 <= k < l <= ids[0].mid ==> ids[k].mid < ids[l].mid;
    while 0 < n
      invariant 0 <= base && 0 <= n && base + n <= ids[0].mid
      invariant forall k :: 1 <= k <= base ==> ids[k].mid < id
      invariant forall k :: base + n < k <= ids[0].mid ==> id < ids[k].mid
      invariant val == 0 ==> base == 0 && n == ids[0].mid && cursor == 1
      invariant val < 0 ==> cursor == base + n + 1
      invariant val > 0 ==> cursor == base
      invariant 1 <= cursor <= ids[0].mid + 1
      decreases n
    {
      var pivot := n / 2;
      cursor := base + pivot + 1;
      if id < ids[cursor].mid {
        val := -1;
        n := pivot;
      } else if id > ids[cursor].mid {
        val := 1;
        base := cursor;
        n := n - (pivot + 1);
      } else {
        return;
      }
    }
    if val > 0 {
      cursor := cursor + 1;
    }
  }

  /** mdb_mid2l_insert: 0 on success, -1 for a duplicate, -2 for a full list. */
  method Insert(ids: array<Id2>, id: Id2) returns (rc: int)
    requires ListIn(ids) && Ascending(Entries(ids)) && ids.Length == IdList.IDL_UM_MAX + 1
    modifies ids
    ensures ListIn(ids) && Ascending(Entries(ids))
    ensures rc == (if HasPage(old(Entries(ids)), id.mid) then -1 else if old(ids[0].mid) >= IdList.IDL_UM_MAX then -2 else 0)
    ensures rc != 0 ==> ids[..] == old(ids[..])
    ensures rc == 0 ==> multiset(Entries(ids)) == multiset(old(Entries(ids))) + multiset{id}
  {
    hide Ascending;
    ghost var s := Entries(ids);
    var x := Search(ids, id.mid);
    assert forall k :: 1 <= k <= |s| ==> ids[k] == s[k - 1];
    if x <= ids[0].mid && ids[x].mid == id.mid {
      assert s[x - 1].mid == id.mid;
      return -1;
    }
    InsertedOk(s, x - 1, id);
    if ids[0].mid >= IdList.IDL_UM_MAX {
      return -2;
    }
    OpenPlace(ids, x);
    ids[x] := id;
    assert Entries(ids) == s[..x - 1] + [id] + s[x - 1..];
    return 0;
  }

  // The entries from place x on move up by one.
  method OpenPlace(ids: array<Id2>, x: nat)
    requires ListIn(ids) && 1 <= x <= ids[0].mid + 1 < ids.Length
    modifies ids
    ensures ids[0].mid == old(ids[0].mid) + 1
    ensures forall k :: 1 <= k < x ==> ids[k] == old(ids[k])
    ensures forall k :: x < k <= ids[0].mid ==> ids[k] == old(ids[k - 1])
  {
    ghost var s := Entries(ids);
    assert forall k :: 1 <= k <= |s| ==> ids[k] == s[k - 1];
    ids[0] := ids[0].(mid := ids[0].mid + 1);
    var i := ids[0].mid;
    while i > x
      invariant x <= i <= |s| + 1 && ids[0].mid == |s| + 1
      invariant forall k :: 1 <= k < i ==> ids[k] == s[k - 1]
      invariant forall k :: i < k <= |s| + 1 ==> ids[k] == s[k - 2]
    {
      ids[i] := ids[i - 1];
      i := i - 1;
    }
  }

  lemma InsertedOk(s: seq<Id2>, x: nat, id: Id2)
    requires Ascending(s) && x <= |s|
    requires forall k :: 0 <= k < x ==> s[k].mid < id.mid
    requires forall k :: x <= k < |s| ==> id.mid <= s[k].mid
    requires x < |s| ==> s[x].mid != id.mid
    ensures !HasPage(s, id.mid)
    ensures Ascending(s[..x] + [id] + s[x..])
    ensures multiset(s[..x] + [id] + s[x..]) == multiset(s) + multiset{id}
  {
    assert s == s[..x] + s[x..];
  }

  ghost predicate HasPage(s: seq<Id2>, p: nat) {
    exists k :: 0 <= k < |s| && s[k].mid == p
  }

  // ---------------------------------------------------------------- the merge

  // The union that the tail-first merge builds: the child's entry wins.
  ghost function Union(p: seq<Id2>, c: seq<Id2>): (u: seq<Id2>)
    ensures |p| <= |u| <= |p| + |c|
    decreases |p| + |c|
  {
    if c == [] then p
    else
      var pi, ci := p[..if p == [] then 0 else |p| - 1], c[..|c| - 1];
      var cl := c[|c| - 1];
      if p == [] then Union(p, ci) + [cl]
      else if cl.mid < p[|p| - 1].mid then Union(pi, c) + [p[|p| - 1]]
      else if cl.mid == p[|p| - 1].mid then Union(pi, ci) + [cl]
      else Union(p, ci) + [cl]
  }

  ghost function ToMap(s: seq<Id2>): (m: map<nat, nat>) {
    if s == [] then map[] else ToMap(s[..|s| - 1])[s[|s| - 1].mid := s[|s| - 1].mptr]
  }

  /** The merged list is in page order and maps every page of either list, to the
      child's memory where both have it. */
  lemma {:induction false} UnionIsChildOverParent(p: seq<Id2>, c: seq<Id2>)
    requires Ascending(p) && Ascending(c)
    ensures Ascending(Union(p, c))
    ensures ToMap(Union(p, c)) == ToMap(p) + ToMap(c)
    decreases |p| + |c|
  {
    hide Ascending, Union, ToMap;
    UnionUnfold(p, c);
    if c == [] {
      assert ToMap(c) == map[] by { Unfold(c); }
    } else {
      var ci, cl := c[..|c| - 1], c[|c| - 1];
      Init(c);
      Unfold(c);
      if p == [] {
        UnionIsChildOverParent(p, ci);
        UnionAppends(Union(p, ci), p, ci, cl);
      } else {
        Init(p);
        Unfold(p);
        var pi, pl := p[..|p| - 1], p[|p| - 1];
        if cl.mid < pl.mid {
          UnionIsChildOverParent(pi, c);
          UnionAppends(Union(pi, c), pi, c, pl);
          KeysBelow(c, pl.mid);
        } else if cl.mid == pl.mid {
          UnionIsChildOverParent(pi, ci);
          UnionAppends(Union(pi, ci), pi, ci, cl);
        } else {
          UnionIsChildOverParent(p, ci);
          UnionAppends(Union(p, ci), p, ci, cl);
        }
      }
    }
  }

  lemma Unfold(s: seq<Id2>)
    ensures ToMap(s) == if s == [] then map[] else ToMap(s[..|s| - 1])[s[|s| - 1].mid := s[|s| - 1].mptr]
  {
  }

  lemma UnionUnfold(p: seq<Id2>, c: seq<Id2>)
    ensures c == [] ==> Union(p, c) == p
    ensures c != [] ==>
              var ci, cl := c[..|c| - 1], c[|c| - 1];
              if p == [] then Union(p, c) == Union(p, ci) + [cl]
              else
                var pi, pl := p[..|p| - 1], p[|p| - 1];
                if cl.mid < pl.mid then Union(p, c) == Union(pi, c) + [pl]
                else if cl.mid == pl.mid then Union(p, c) == Union(pi, ci) + [cl]
                else Union(p, c) == Union(p, ci) + [cl]
  {
  }

  lemma Init(s: seq<Id2>)
    requires s != [] && Ascending(s)
    ensures Ascending(s[..|s| - 1]) && (|s| > 1 ==> s[|s| - 2].mid < s[|s| - 1].mid)
  {
  }

  lemma {:induction false} KeysBelow(s: seq<Id2>, bound: nat)
    requires Ascending(s) && (s == [] || s[|s| - 1].mid < bound)
    ensures forall k :: k in ToMap(s) ==> k < bound
  {
    if s != [] { KeysBelow(s[..|s| - 1], bound); }
  }

  lemma {:induction false} MapKeys(s: seq<Id2>)
    ensures forall k :: k in ToMap(s) <==> HasPage(s, k)
  {
    if s != [] {
      var init := s[..|s| - 1];
      MapKeys(init);
      assert forall k :: HasPage(init, k) ==> HasPage(s, k);
      assert s[|s| - 1].mid == s[|s| - 1].mid && HasPage(s, s[|s| - 1].mid);
    }
  }

  // Appending an entry above everything in u, whose pages are those of a and b.
  lemma UnionAppends(u: seq<Id2>, a: seq<Id2>, b: seq<Id2>, e: Id2)
    requires Ascending(u) && Ascending(a) && Ascending(b) && ToMap(u) == ToMap(a) + ToMap(b)
    requires (a == [] || a[|a| - 1].mid < e.mid) && (b == [] || b[|b| - 1].mid < e.mid)
    ensures Ascending(u + [e]) && ToMap(u + [e]) == ToMap(u)[e.mid := e.mptr]
  {
    KeysBelow(a, e.mid);
    KeysBelow(b, e.mid);
    MapKeys(u);
    assert (u + [e])[..|u|] == u;
    forall i | 0 <= i < |u|
      ensures u[i].mid < e.mid
    {
      assert HasPage(u, u[i].mid);
    }
  }

  // The pages of a dirty list; in page order it holds each once.
  ghost function PagesOf(s: seq<Id2>): (pages: set<nat>) {
    ToMap(s).Keys
  }

  lemma {:induction false} CountPages(s: seq<Id2>)
    requires Ascending(s)
    ensures |PagesOf(s)| == |s|
  {
    if s != [] {
      var init, last := s[..|s| - 1], s[|s| - 1];
      CountPages(init);
      KeysBelow(init, last.mid);
      assert PagesOf(s) == PagesOf(init) + {last.mid};
    }
  }

  lemma UnionPages(p: seq<Id2>, c: seq<Id2>)
    requires Ascending(p) && Ascending(c)
    ensures PagesOf(Union(p, c)) == PagesOf(p) + PagesOf(c)
    ensures |Union(p, c)| == |PagesOf(p) + PagesOf(c)|
  {
    UnionIsChildOverParent(p, c);
    CountPages(Union(p, c));
  }

  // ----------------------------------------------------- the length, up front

  // Entries above everything in p only add to the union.
  lemma {:induction false} UnionTail(p: seq<Id2>, c: seq<Id2>, y: nat)
    requires y <= |c| && forall k :: y <= k < |c| ==> p == [] || p[|p| - 1].mid < c[k].mid
    ensures |Union(p, c)| == |Union(p, c[..y])| + (|c| - y)
    decreases |c|
  {
    if y == |c| {
      assert c[..y] == c;
    } else {
      var ci := c[..|c| - 1];
      UnionTail(p, ci, y);
      assert ci[..y] == c[..y];
      UnionUnfold(p, c);
    }
  }

  // One comparison of the length computation or of the merge, on prefixes.
  lemma UnionAt(p: seq<Id2>, x: nat, c: seq<Id2>, y: nat)
    requires x <= |p| && 0 < y <= |c|
    ensures var u, cl := Union(p[..x], c[..y]), c[y - 1];
            if x == 0 then u == Union(p[..x], c[..y - 1]) + [cl]
            else if cl.mid < p[x - 1].mid then u == Union(p[..x - 1], c[..y]) + [p[x - 1]]
            else if cl.mid == p[x - 1].mid then u == Union(p[..x - 1], c[..y - 1]) + [cl]
            else u == Union(p[..x], c[..y - 1]) + [cl]
  {
    UnionUnfold(p[..x], c[..y]);
    assert c[..y][..y - 1] == c[..y - 1];
    assert x > 0 ==> p[..x][..x - 1] == p[..x - 1];
  }

  ghost predicate Counting(p: seq<Id2>, i: nat, c: seq<Id2>, y: nat, len: nat) {
    i <= |p| && y <= |c| && len + |Union(p[..i], c[..y])| == |Union(p, c)| + i + y
  }

  /** The merged length, computed before anything moves. */
  method MergedLength(dst: array<Id2>, x: nat, src: array<Id2>, ghost p: seq<Id2>, ghost c: seq<Id2>) returns (len: nat)
    requires x < dst.Length && dst[0].mid == 0 && dst[1..x + 1] == p
    requires ListIn(src) && Entries(src) == c
    requires Ascending(p) && Ascending(c) && Positive(p) && Positive(c)
    ensures len == |Union(p, c)|
  {
    hide Union, Ascending;
    len := x + src[0].mid;
    var y := Search(src, dst[x].mid + 1);
    y := y - 1;
    var i := x;
    CountingStarts(p, c, y, dst[x].mid);
    while y > 0 && i > 0
      invariant 0 <= i <= x && 0 <= y <= |c| && Counting(p, i, c, y, len)
    {
      var yp := src[y].mid;
      assert src[y] == Entries(src)[y - 1] == c[y - 1];
      while yp < dst[i].mid
        invariant 0 <= i <= x && Counting(p, i, c, y, len) && c[y - 1].mid == yp
        decreases i
      {
        assert dst[i] == dst[1..x + 1][i - 1];
        UnionAt(p, i, c, y);
        i := i - 1;
      }
      assert i > 0 ==> dst[i] == dst[1..x + 1][i - 1];
      UnionAt(p, i, c, y);
      if yp == dst[i].mid {
        CountingBound(p, i, c, y, len);
        i := i - 1;
        len := len - 1;
      }
      y := y - 1;
    }
    CountingEnds(p, i, c, y, len);
  }

  lemma CountingStarts(p: seq<Id2>, c: seq<Id2>, y: nat, last: nat)
    requires Ascending(p) && y <= |c| && last == (if p == [] then 0 else p[|p| - 1].mid)
    requires forall k :: y <= k < |c| ==> last < c[k].mid
    ensures Counting(p, |p|, c, y, |p| + |c|)
  {
    UnionTail(p, c, y);
    assert p[..|p|] == p;
  }

  // While an entry is left to compare, the length has not run out.
  lemma CountingBound(p: seq<Id2>, i: nat, c: seq<Id2>, y: nat, len: nat)
    requires Counting(p, i, c, y, len) && i > 0
    ensures len > 0
  {
    assert |Union(p, c)| >= |p| && |Union(p[..i], c[..y])| <= i + y;
  }

  lemma CountingEnds(p: seq<Id2>, i: nat, c: seq<Id2>, y: nat, len: nat)
    requires Counting(p, i, c, y, len) && (i == 0 || y == 0)
    ensures len == |Union(p, c)|
  {
    if y == 0 {
      assert c[..0] == [];
    } else {
      UnionTail(p[..0], c[..y], 0);
      assert c[..y][..0] == [];
    }
  }

  // -------------------------------------------------------- the merge in place

  // Mid-merge: p[..x] and c[..y] are still to be placed, `done` is final at places
  // i+1 on.
  ghost predicate Merging(s: seq<Id2>, x: nat, i: nat, p: seq<Id2>, c: seq<Id2>, y: nat, done: seq<Id2>) {
    && x <= |p| && y <= |c| && i == |Union(p[..x], c[..y])|
    && x <= i && i + |done| < |s|
    && s[0].mid == 0 && s[1..x + 1] == p[..x] && s[i + 1..i + 1 + |done|] == done
    && Union(p[..x], c[..y]) + done == Union(p, c)
  }

  // Every entry taken from the two lists is either placed or freed.
  ghost predicate Kept(p: seq<Id2>, c: seq<Id2>, done: seq<Id2>, freed: seq<Id2>) {
    multiset(p) + multiset(c) == multiset(done) + multiset(freed)
  }

  lemma KeptAdds(a: seq<Id2>, b: seq<Id2>, over: seq<Id2>, p: seq<Id2>, c: seq<Id2>, done: seq<Id2>, freed: seq<Id2>)
    requires Kept(p, c, done, freed)
    ensures Kept(a + p, c, a + done, freed)
    ensures Kept(over + p, b + c, b + done, freed + over)
  {
    var mp, mc, md, mf := multiset(p), multiset(c), multiset(done), multiset(freed);
    var ma, mb, mo := multiset(a), multiset(b), multiset(over);
    assert multiset(a + p) + mc == ma + mp + mc == ma + (mp + mc);
    assert multiset(a + done) + mf == ma + md + mf == ma + (md + mf);
    assert multiset(over + p) + multiset(b + c) == mo + mp + (mb + mc) == mo + mb + (mp + mc);
    assert multiset(b + done) + multiset(freed + over) == mb + md + (mf + mo) == mo + mb + (md + mf);
  }

  lemma MergeStarts(s: seq<Id2>, p: seq<Id2>, c: seq<Id2>)
    requires |Union(p, c)| < |s| && s[0].mid == 0 && s[1..|p| + 1] == p
    ensures Merging(s, |p|, |Union(p, c)|, p, c, |c|, [])
    ensures Kept(p[|p|..], c[|c|..], [], [])
  {
    assert p[..|p|] == p && c[..|c|] == c;
    assert p[|p|..] == [] && c[|c|..] == [];
  }

  lemma TakeParent(s: seq<Id2>, x: nat, i: nat, p: seq<Id2>, c: seq<Id2>, y: nat, done: seq<Id2>, freed: seq<Id2>)
    requires Merging(s, x, i, p, c, y, done) && Kept(p[x..], c[y..], done, freed)
    requires y > 0 && c[y - 1].mid < s[x].mid
    ensures 0 < x <= i < |s| && s[x] == p[x - 1]
    ensures Merging(s[i := s[x]], x - 1, i - 1, p, c, y, [s[x]] + done)
    ensures Kept(p[x - 1..], c[y..], [s[x]] + done, freed)
  {
    hide Union, Kept;
    assert x > 0;
    assert s[x] == s[1..x + 1][x - 1] == p[x - 1];
    KeptAdds([s[x]], [], [], p[x..], c[y..], done, freed);
    UnionAt(p, x, c, y);
    UnionLonger(p[..x - 1], c[..y]);
    var t := s[i := s[x]];
    PlacedAt(s, x, i, s[x], done);
    assert t[1..x] == s[1..x + 1][..x - 1] == p[..x - 1];
    SplitTail(p, x);
  }

  // An entry placed in front of those done, above the list still to be read.
  lemma PlacedAt(s: seq<Id2>, x: nat, i: nat, e: Id2, done: seq<Id2>)
    requires x <= i && 0 < i && i + |done| < |s| && s[i + 1..i + 1 + |done|] == done
    ensures s[i := e][i..i + 1 + |done|] == [e] + done
    ensures x > 0 ==> s[i := e][1..x] == s[1..x + 1][..x - 1]
    ensures x < i ==> s[i := e][1..x + 1] == s[1..x + 1]
  {
    var t := s[i := e];
    assert t[i..i + 1 + |done|] == [t[i]] + t[i + 1..i + 1 + |done|];
    assert t[i + 1..i + 1 + |done|] == s[i + 1..i + 1 + |done|];
  }

  lemma SplitTail(p: seq<Id2>, x: nat)
    requires 0 < x <= |p|
    ensures p[x - 1..] == [p[x - 1]] + p[x..]
  {
  }

  lemma UnionLonger(p: seq<Id2>, c: seq<Id2>)
    ensures |p| <= |Union(p, c)|
  {
  }

  // Place c[y-1], above every parent entry left.
  lemma TakeChild(s: seq<Id2>, x: nat, i: nat, p: seq<Id2>, c: seq<Id2>, y: nat, done: seq<Id2>, freed: seq<Id2>)
    requires Merging(s, x, i, p, c, y, done) && Kept(p[x..], c[y..], done, freed)
    requires y > 0 && c[y - 1].mid > s[x].mid
    ensures 0 < i < |s| && Merging(s[i := c[y - 1]], x, i - 1, p, c, y - 1, [c[y - 1]] + done)
    ensures Kept(p[x..], c[y - 1..], [c[y - 1]] + done, freed)
  {
    hide Union, Kept;
    if x > 0 { assert s[x] == s[1..x + 1][x - 1] == p[x - 1]; }
    UnionAt(p, x, c, y);
    UnionLonger(p[..x], c[..y - 1]);
    var e := c[y - 1];
    PlacedAt(s, x, i, e, done);
    assert Kept(p[x..], c[y - 1..], [e] + done, freed) by {
      KeptAdds([], [e], [], p[x..], c[y..], done, freed);
      SplitTail(c, y);
      assert [] + p[x..] == p[x..] && freed + [] == freed;
    }
  }

  // Place c[y-1] for the parent's entry of the same page, which is freed.
  lemma TakeOver(s: seq<Id2>, x: nat, i: nat, p: seq<Id2>, c: seq<Id2>, y: nat, done: seq<Id2>, freed: seq<Id2>)
    requires Merging(s, x, i, p, c, y, done) && Kept(p[x..], c[y..], done, freed)
    requires y > 0 && c[y - 1].mid == s[x].mid > 0
    ensures 0 < x && 0 < i < |s| && Merging(s[i := c[y - 1]], x - 1, i - 1, p, c, y - 1, [c[y - 1]] + done)
    ensures Kept(p[x - 1..], c[y - 1..], [c[y - 1]] + done, freed + [s[x]])
  {
    hide Union, Kept;
    assert x > 0;
    assert s[x] == s[1..x + 1][x - 1] == p[x - 1];
    KeptAdds([], [c[y - 1]], [s[x]], p[x..], c[y..], done, freed);
    UnionAt(p, x, c, y);
    UnionLonger(p[..x - 1], c[..y - 1]);
    var t := s[i := c[y - 1]];
    PlacedAt(s, x, i, c[y - 1], done);
    assert t[1..x] == s[1..x + 1][..x - 1] == p[..x - 1];
    SplitTail(c, y);
    SplitTail(p, x);
  }

  lemma MergeEnds(s: seq<Id2>, x: nat, i: nat, p: seq<Id2>, c: seq<Id2>, done: seq<Id2>, freed: seq<Id2>)
    requires Merging(s, x, i, p, c, 0, done) && Kept(p[x..], c[0..], done, freed)
    ensures i == x && |Union(p, c)| < |s| && s[1..|Union(p, c)| + 1] == Union(p, c)
    ensures Kept(p, c, Union(p, c), freed)
  {
    hide Union, Kept;
    KeptAdds(p[..x], [], [], p[x..], c[0..], done, freed);
    UnionUnfold(p[..x], c[..0]);
    assert c[..0] == [] && c[0..] == c;
    assert Union(p, c) == p[..x] + done;
    assert s[1..x + 1 + |done|] == s[1..x + 1] + s[x + 1..x + 1 + |done|];
    assert p == p[..x] + p[x..];
  }

  /** The merge itself, tail first and in place: nothing unread is overwritten, the
      two cursors meet at the end, and the entries freed are exactly those of the
      parent that the child replaces. */
  method MergeInto(dst: array<Id2>, x0: nat, len: nat, src: array<Id2>, ghost p: seq<Id2>, ghost c: seq<Id2>)
    returns (freed: seq<Id2>)
    requires dst != src && x0 == |p| < dst.Length && dst[0].mid == 0 && dst[1..x0 + 1] == p
    requires ListIn(src) && Entries(src) == c && Positive(c)
    requires len == |Union(p, c)| < dst.Length
    modifies dst
    ensures dst[1..len + 1] == Union(p, c)
    ensures Kept(p, c, Union(p, c), freed)
  {
    hide Union, Merging, Kept;
    var x: nat, i: nat, y: nat := x0, len, src[0].mid;
    freed := [];
    ghost var done: seq<Id2> := [];
    MergeStarts(dst[..], p, c);
    while y > 0
      invariant x < dst.Length && x <= |p| && i < dst.Length && y <= |c|
      invariant Merging(dst[..], x, i, p, c, y, done) && Kept(p[x..], c[y..], done, freed)
    {
      var yp := src[y].mid;
      assert src[y] == Entries(src)[y - 1] == c[y - 1];
      while yp < dst[x].mid
        invariant x < dst.Length && x <= |p| && i < dst.Length
        invariant Merging(dst[..], x, i, p, c, y, done) && Kept(p[x..], c[y..], done, freed)
        decreases x
      {
        TakeParent(dst[..], x, i, p, c, y, done, freed);
        done := [dst[x]] + done;
        dst[i] := dst[x];
        i := i - 1;
        x := x - 1;
      }
      if yp == dst[x].mid {
        TakeOver(dst[..], x, i, p, c, y, done, freed);
        freed := freed + [dst[x]];
        x := x - 1;
      } else {
        TakeChild(dst[..], x, i, p, c, y, done, freed);
      }
      done := [src[y]] + done;
      dst[i] := src[y];
      i := i - 1;
      y := y - 1;
    }
    MergeEnds(dst[..], x, i, p, c, done, freed);
    assert i == x;
  }

  /** Commit of a nested transaction's dirty list into its parent's.  `nested` says
      that the parent has a parent itself; `outer` are the pages dirty further out.
      The length comes from a count in that case and from mt_dirty_room otherwise. */
  method CommitDirty(dst: array<Id2>, src: array<Id2>, dirtyRoom: nat, nested: bool, ghost outer: set<nat>)
    returns (freed: seq<Id2>)
    requires dst != src && ListIn(dst) && ListIn(src) && dst.Length == IdList.IDL_UM_MAX + 1
    requires Ascending(Entries(dst)) && Ascending(Entries(src)) && Positive(Entries(dst)) && Positive(Entries(src))
    requires dirtyRoom + |outer + PagesOf(Entries(dst)) + PagesOf(Entries(src))| == IdList.IDL_UM_MAX
    requires !nested ==> outer == {}
    modifies dst
    ensures ListIn(dst) && Ascending(Entries(dst))
    ensures ToMap(Entries(dst)) == ToMap(old(Entries(dst))) + ToMap(Entries(src))
    ensures Kept(old(Entries(dst)), Entries(src), Entries(dst), freed)
    ensures dirtyRoom + |outer + PagesOf(Entries(dst))| == IdList.IDL_UM_MAX
  {
    hide Union, Ascending, Positive, ToMap;
    ghost var p, c := Entries(dst), Entries(src);
    UnionPages(p, c);
    UnionIsChildOverParent(p, c);
    assert outer + PagesOf(p) + PagesOf(c) == outer + (PagesOf(p) + PagesOf(c));
    RoomBound(outer, PagesOf(p) + PagesOf(c));
    var x := dst[0].mid;
    dst[0] := dst[0].(mid := 0);
    assert dst[1..x + 1] == p;
    var len;
    if nested {
      len := MergedLength(dst, x, src, p, c);
    } else {
      len := IdList.IDL_UM_MAX - dirtyRoom;
      assert outer + PagesOf(p) + PagesOf(c) == PagesOf(p) + PagesOf(c);
    }
    freed := MergeInto(dst, x, len, src, p, c);
    dst[0] := dst[0].(mid := len);
    assert Entries(dst) == Union(p, c);
  }

  lemma RoomBound(outer: set<nat>, pages: set<nat>)
    ensures |pages| <= |outer + pages|
  {
    assert outer + pages == pages + (outer - pages);
  }
}
