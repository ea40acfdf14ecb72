// mdb_midl_sort (client/midl.c:220-279): quicksort with an explicit stack of
// postponed segments, insertion sort below nine entries.
module IdSort {
  import opened IdList

  const SMALL := 8
  // sizeof(int) * CHAR_BIT * 2 entries; entry 0 is never used.
  const STACK_SIZE := 64
  const INT_MAX := 0x7FFF_FFFF
  // The longest list for which no sum of two indices overflows an int.
  const SORT_MAX := 0x4000_0003

  // ------------------------------------------------- permuting one segment

  // `t` is `s` with the entries at lo..hi permuted and nothing else changed.
  ghost predicate SegPerm(s: seq<nat>, t: seq<nat>, lo: nat, hi: int)
  {
    && |s| == |t| && lo <= hi + 1 <= |s|
    && s[..lo] == t[..lo] && s[hi + 1..] == t[hi + 1..]
    && multiset(s[lo..hi + 1]) == multiset(t[lo..hi + 1])
  }

  ghost function Swapped(s: seq<nat>, x: nat, y: nat): (t: seq<nat>)
    requires x < |s| && y < |s|
    ensures |t| == |s| && t[x] == s[y] && t[y] == s[x]
    ensures forall k :: 0 <= k < |s| && k != x && k != y ==> t[k] == s[k]
  {
    s[x := s[y]][y := s[x]]
  }

  lemma SegPermSwap(s: seq<nat>, lo: nat, hi: nat, x: nat, y: nat)
    requires lo <= x <= hi && lo <= y <= hi < |s|
    ensures SegPerm(s, Swapped(s, x, y), lo, hi)
  {
    var t := Swapped(s, x, y);
    var a: seq<nat>, b: seq<nat> := s[lo..hi + 1], t[lo..hi + 1];
    assert b == a[x - lo := a[y - lo]][y - lo := a[x - lo]];
    assert multiset(a[x - lo := a[y - lo]][y - lo := a[x - lo]]) == multiset(a);
  }

  lemma SegPermTrans(s: seq<nat>, t: seq<nat>, u: seq<nat>, lo: nat, hi: int)
    requires SegPerm(s, t, lo, hi) && SegPerm(t, u, lo, hi)
    ensures SegPerm(s, u, lo, hi)
  {
  }

  lemma SegPermAt(s: seq<nat>, t: seq<nat>, lo: nat, hi: int, x: nat)
    requires SegPerm(s, t, lo, hi) && x < |s| && (x < lo || hi < x)
    ensures t[x] == s[x]
  {
    if x < lo {
      assert s[..lo][x] == t[..lo][x];
    } else {
      assert s[hi + 1..][x - hi - 1] == t[hi + 1..][x - hi - 1];
    }
  }

  // Every entry of the permuted segment was in the segment before.
  lemma SegPermFrom(s: seq<nat>, t: seq<nat>, lo: nat, hi: int, x: nat) returns (y: nat)
    requires SegPerm(s, t, lo, hi) && lo <= x <= hi
    ensures lo <= y <= hi && t[x] == s[y]
  {
    assert t[x] == t[lo..hi + 1][x - lo];
    assert t[x] in multiset(t[lo..hi + 1]);
    assert t[x] in s[lo..hi + 1];
    var k :| 0 <= k < |s[lo..hi + 1]| && s[lo..hi + 1][k] == t[x];
    y := lo + k;
  }

  // ------------------------------------------------------- pending segments

  datatype Segment = Segment(lo: nat, hi: int) {
    ghost function Size(): int { hi - lo + 1 }
  }

  ghost predicate Together(segs: seq<Segment>, x: int, y: int) {
    exists k :: 0 <= k < |segs| && segs[k].lo <= x && y <= segs[k].hi
  }

  // All of 1..n is in descending order, except inside the pending segments.
  ghost predicate SortedApart(s: seq<nat>, n: nat, segs: seq<Segment>)
    requires n < |s|
  {
    forall x, y :: 1 <= x < y <= n && s[x] < s[y] ==> Together(segs, x, y)
  }

  ghost predicate Disjoint(segs: seq<Segment>, n: nat) {
    && (forall k :: 0 <= k < |segs| ==> 1 <= segs[k].lo <= segs[k].hi + 1 <= n + 1)
    && (forall k, m :: 0 <= k < m < |segs| ==> segs[k].hi < segs[m].lo || segs[m].hi < segs[k].lo)
  }

  lemma SegPermKeepsApart(s: seq<nat>, t: seq<nat>, n: nat, segs: seq<Segment>, cur: Segment)
    requires n < |s| && Disjoint(segs + [cur], n)
    requires SortedApart(s, n, segs + [cur])
    requires SegPerm(s, t, cur.lo, cur.hi)
    ensures SortedApart(t, n, segs + [cur])
  {
    var all := segs + [cur];
    forall x, y | 1 <= x < y <= n && t[x] < t[y]
      ensures Together(all, x, y)
    {
      var x', y' := x, y;
      if cur.lo <= x <= cur.hi {
        x' := SegPermFrom(s, t, cur.lo, cur.hi, x);
      } else {
        SegPermAt(s, t, cur.lo, cur.hi, x);
      }
      if cur.lo <= y <= cur.hi {
        y' := SegPermFrom(s, t, cur.lo, cur.hi, y);
      } else {
        SegPermAt(s, t, cur.lo, cur.hi, y);
      }
      if cur.lo <= x && y <= cur.hi {
        assert all[|segs|] == cur;
      } else {
        assert s[x'] < s[y'] && x' < y';
        var k :| 0 <= k < |all| && all[k].lo <= x' && y' <= all[k].hi;
        assert all[|segs|] == cur;
      }
    }
  }

  // The current segment is sorted: it is no longer pending.
  lemma SegmentDone(s: seq<nat>, n: nat, segs: seq<Segment>, cur: Segment)
    requires n < |s| && SortedApart(s, n, segs + [cur])
    requires forall x, y :: cur.lo <= x < y <= cur.hi && x < |s| && y < |s| ==> s[x] >= s[y]
    ensures SortedApart(s, n, segs)
  {
    var all := segs + [cur];
    forall x, y | 1 <= x < y <= n && s[x] < s[y]
      ensures Together(segs, x, y)
    {
      var k :| 0 <= k < |all| && all[k].lo <= x && y <= all[k].hi;
      assert k < |segs| && segs[k] == all[k];
    }
  }

  // The current segment is split around a pivot: only the two parts stay pending.
  ghost predicate Split(s: seq<nat>, cur: Segment, i: nat, j: nat) {
    && 1 <= cur.lo < j < i <= cur.hi < |s|
    && (forall x, y :: cur.lo <= x < j <= y <= cur.hi ==> s[x] >= s[y])
    && (forall x, y :: cur.lo <= x < i <= y <= cur.hi ==> s[x] >= s[y])
    && (forall x :: j <= x < i ==> s[x] == s[j])
  }

  // Two parts of one segment, apart from each other, for the segment.
  lemma StillDisjoint(n: nat, segs: seq<Segment>, cur: Segment, first: Segment, second: Segment)
    requires Disjoint(segs + [cur], n)
    requires cur.lo <= first.lo <= first.hi + 1 && first.hi <= cur.hi
    requires cur.lo <= second.lo <= second.hi + 1 && second.hi <= cur.hi
    requires first.hi < second.lo || second.hi < first.lo
    ensures Disjoint(segs + [first] + [second], n)
  {
    var all, new' := segs + [cur], segs + [first] + [second];
    assert all[|segs|] == cur && new'[|segs|] == first && new'[|segs| + 1] == second;
    assert forall k :: 0 <= k < |segs| ==> new'[k] == segs[k] == all[k];
  }

  lemma SegmentSplit(s: seq<nat>, n: nat, segs: seq<Segment>, cur: Segment, i: nat, j: nat, first: Segment, second: Segment)
    requires n < |s| && SortedApart(s, n, segs + [cur]) && Disjoint(segs + [cur], n)
    requires Split(s, cur, i, j)
    requires (first, second) == (Segment(cur.lo, j - 1), Segment(i, cur.hi)) ||
             (second, first) == (Segment(cur.lo, j - 1), Segment(i, cur.hi))
    ensures SortedApart(s, n, segs + [first] + [second])
    ensures Disjoint(segs + [first] + [second], n)
  {
    hide Disjoint;
    StillDisjoint(n, segs, cur, first, second);
    var all, new' := segs + [cur], segs + [first] + [second];
    assert all[|segs|] == cur && new'[|segs|] == first && new'[|segs| + 1] == second;
    assert forall k :: 0 <= k < |segs| ==> new'[k] == segs[k] == all[k];
    forall x, y | 1 <= x < y <= n && s[x] < s[y]
      ensures Together(new', x, y)
    {
      var k :| 0 <= k < |all| && all[k].lo <= x && y <= all[k].hi;
      if k == |segs| {
        assert y < j || i <= x;
        assert Together(new', x, y);
      } else {
        assert new'[k] == all[k];
      }
    }
  }

  // ------------------------------------------------------------- stack depth

  ghost function Pow2(d: nat): (p: nat)
    ensures p > d
  {
    if d == 0 then 1 else 2 * Pow2(d - 1)
  }

  // Segment number k of the stack is at most n / 2^k long.
  ghost predicate Halving(segs: seq<Segment>, n: nat) {
    forall k :: 0 <= k < |segs| ==> segs[k].Size() * Pow2(k) <= n
  }

  lemma {:induction false} DepthBound(d: nat)
    requires 9 * Pow2(d) <= INT_MAX
    ensures d <= 27
  {
    Pow2Of28();
    if d > 27 {
      Pow2Mono(28, d);
    }
  }

  lemma Pow2Of28()
    ensures Pow2(28) == 268435456
  {
    assert Pow2(4) == 16;
    assert Pow2(8) == 256 by { assert Pow2(6) == 64; }
    assert Pow2(12) == 4096 by { assert Pow2(10) == 1024; }
    assert Pow2(16) == 65536 by { assert Pow2(14) == 16384; }
    assert Pow2(20) == 1048576 by { assert Pow2(18) == 262144; }
    assert Pow2(24) == 16777216 by { assert Pow2(22) == 4194304; }
    assert Pow2(28) == 268435456 by { assert Pow2(26) == 67108864; }
  }

  lemma {:induction false} Pow2Mono(a: nat, b: nat)
    requires a <= b
    ensures Pow2(a) <= Pow2(b)
    decreases b
  {
    if a < b { Pow2Mono(a, b - 1); }
  }

  lemma Doubled(a: int, c: nat)
    ensures a * (2 * c) == 2 * a * c
  {
  }

  lemma HalvingSplit(segs: seq<Segment>, cur: Segment, n: nat, larger: Segment, smaller: Segment)
    requires Halving(segs + [cur], n)
    requires larger.Size() <= cur.Size() && 2 * smaller.Size() <= cur.Size()
    ensures Halving(segs + [larger] + [smaller], n)
  {
    var d := |segs|;
    var all, new' := segs + [cur], segs + [larger] + [smaller];
    assert all[d] == cur;
    MulMono(larger.Size(), cur.Size(), Pow2(d));
    MulMono(2 * smaller.Size(), cur.Size(), Pow2(d));
    Doubled(smaller.Size(), Pow2(d));
    assert smaller.Size() * Pow2(d + 1) <= n;
    forall k | 0 <= k < |new'|
      ensures new'[k].Size() * Pow2(k) <= n
    {
      if k < d { assert new'[k] == all[k]; }
    }
  }

  // ------------------------------------------------------------ array steps

  method Swap(ids: array<nat>, x: nat, y: nat, ghost lo: nat, ghost hi: nat)
    requires lo <= x <= hi && lo <= y <= hi < ids.Length
    modifies ids
    ensures ids[..] == Swapped(old(ids[..]), x, y)
    ensures SegPerm(old(ids[..]), ids[..], lo, hi)
  {
    SegPermSwap(ids[..], lo, hi, x, y);
    ids[x], ids[y] := ids[y], ids[x];
  }

  ghost predicate SortedBetween(s: seq<nat>, lo: nat, hi: int)
    requires hi < |s|
  {
    forall x, y :: lo <= x < y <= hi ==> s[x] >= s[y]
  }

  // Entries before the segment bound it: the sentinel of the insertion loop.
  ghost predicate BoundedBefore(s: seq<nat>, lo: nat, hi: int)
    requires hi < |s|
  {
    forall x, y :: 1 <= x < lo <= y <= hi ==> s[x] >= s[y]
  }

  // Moving ids[j] down to its place among the sorted ids[lo..j-1].  The loop is
  // bounded by 1 only; BoundedBefore is what keeps it inside the segment.
  method Insert(ids: array<nat>, lo: nat, j: nat)
    requires 1 <= lo < j < ids.Length
    requires SortedBetween(ids[..], lo, j - 1) && BoundedBefore(ids[..], lo, j)
    modifies ids
    ensures SegPerm(old(ids[..]), ids[..], lo, j)
    ensures SortedBetween(ids[..], lo, j)
  {
    hide *;
    var a := ids[j];
    var i: int := j - 1;
    ghost var s, t := ids[..], ids[..];
    InsertStart(s, lo, j);
    while i >= 1 && ids[i] < a
      invariant lo - 1 <= i <= j - 1
      invariant Inserting(s, t, lo, j, i) && |t| == ids.Length && t[i + 1] == a
      invariant forall x :: 0 <= x < |t| && x != i + 1 ==> ids[x] == t[x]
    {
      InsertStep(s, t, lo, j, i);
      t := Swapped(t, i, i + 1);
      ids[i + 1] := ids[i];
      i := i - 1;
    }
    InsertDone(s, t, lo, j, i);
    ids[i + 1] := a;
    assert ids[..] == t;
  }

  // `t` is `s` with the entry of index j moved down to index i + 1.
  ghost predicate Inserting(s: seq<nat>, t: seq<nat>, lo: nat, j: nat, i: int) {
    lo - 1 <= i <= j - 1 && Moved(s, t, j, i) && SegPerm(s, t, lo, j)
  }

  ghost predicate Moved(s: seq<nat>, t: seq<nat>, j: nat, i: int) {
    && -1 <= i < j < |s| == |t| && t[i + 1] == s[j]
    && (forall x {:trigger t[x]} :: 0 <= x <= i ==> t[x] == s[x])
    && (forall x {:trigger t[x]} :: i + 2 <= x <= j ==> t[x] == s[x - 1] < s[j])
  }

  lemma InsertStart(s: seq<nat>, lo: nat, j: nat)
    requires 1 <= lo < j < |s|
    ensures Inserting(s, s, lo, j, j - 1)
  {
  }

  // Entries before the segment are not smaller: the search stops at its start.
  lemma InSegment(s: seq<nat>, lo: nat, j: nat, i: nat)
    requires 1 <= lo < j < |s| && BoundedBefore(s, lo, j) && 1 <= i < j && s[i] < s[j]
    ensures lo <= i
  {
  }

  lemma InsertStep(s: seq<nat>, t: seq<nat>, lo: nat, j: nat, i: int)
    requires 1 <= lo < j < |s| && BoundedBefore(s, lo, j) && Inserting(s, t, lo, j, i)
    requires 1 <= i && t[i] < s[j]
    ensures lo <= i && Inserting(s, Swapped(t, i, i + 1), lo, j, i - 1)
  {
    hide SegPerm, Swapped, BoundedBefore;
    assert t[i] == s[i];
    InSegment(s, lo, j, i);
    MovedStep(s, t, j, i);
    SegPermSwap(t, lo, j, i, i + 1);
    SegPermTrans(s, t, Swapped(t, i, i + 1), lo, j);
  }

  lemma MovedStep(s: seq<nat>, t: seq<nat>, j: nat, i: int)
    requires Moved(s, t, j, i) && 0 <= i && t[i] < s[j]
    ensures Moved(s, Swapped(t, i, i + 1), j, i - 1)
  {
    var u := Swapped(t, i, i + 1);
    assert u[i] == t[i + 1] && u[i + 1] == t[i];
    assert forall x {:trigger u[x]} :: 0 <= x <= i - 1 ==> u[x] == t[x] == s[x];
    assert forall x {:trigger u[x]} :: i + 1 <= x <= j ==> u[x] == s[x - 1] < s[j] by {
      forall x | i + 1 <= x <= j
        ensures u[x] == s[x - 1] && s[x - 1] < s[j]
      {
        assert x == i + 1 || u[x] == t[x];
        assert t[i] == s[i];
      }
    }
    assert Moved(s, u, j, i - 1);
  }

  lemma InsertDone(s: seq<nat>, t: seq<nat>, lo: nat, j: nat, i: int)
    requires 1 <= lo < j && Inserting(s, t, lo, j, i) && SortedBetween(s, lo, j - 1)
    requires i < 1 || t[i] >= s[j]
    ensures SegPerm(s, t, lo, j) && SortedBetween(t, lo, j)
  {
    hide SegPerm;
    forall x, y | lo <= x < y <= j
      ensures t[x] >= t[y]
    {
      var a, b := if x <= i then x else x - 1, if y <= i then y else y - 1;
      assert x != i + 1 ==> t[x] == s[a];
      assert y != i + 1 ==> t[y] == s[b];
    }
  }

  method InsertionSort(ids: array<nat>, lo: nat, hi: int)
    requires 1 <= lo <= hi + 1 <= ids.Length && BoundedBefore(ids[..], lo, hi)
    modifies ids
    ensures SegPerm(old(ids[..]), ids[..], lo, hi)
    ensures SortedBetween(ids[..], lo, hi)
  {
    ghost var s := ids[..];
    var j := lo + 1;
    while j <= hi
      invariant lo + 1 <= j && (j <= hi + 1 || hi <= lo)
      invariant SegPerm(s, ids[..], lo, hi) && BoundedBefore(ids[..], lo, hi)
      invariant j <= hi + 1 ==> SortedBetween(ids[..], lo, j - 1)
    {
      ghost var t := ids[..];
      Insert(ids, lo, j);
      InsertInSegment(t, ids[..], lo, j, hi);
      SegPermTrans(s, t, ids[..], lo, hi);
      j := j + 1;
    }
  }

  lemma InsertInSegment(s: seq<nat>, t: seq<nat>, lo: nat, j: nat, hi: nat)
    requires SegPerm(s, t, lo, j) && lo <= j <= hi < |s| && BoundedBefore(s, lo, hi)
    ensures SegPerm(s, t, lo, hi) && BoundedBefore(t, lo, hi)
  {
    var a, b := s[j + 1..], t[j + 1..];
    assert s[hi + 1..] == a[hi - j..] == b[hi - j..] == t[hi + 1..];
    assert s[lo..hi + 1] == s[lo..j + 1] + a[..hi - j];
    assert t[lo..hi + 1] == t[lo..j + 1] + b[..hi - j];
    BoundedKept(s, t, lo, hi);
  }

  lemma BoundedKept(s: seq<nat>, t: seq<nat>, lo: nat, hi: int)
    requires SegPerm(s, t, lo, hi) && BoundedBefore(s, lo, hi)
    ensures BoundedBefore(t, lo, hi)
  {
    forall x, y | 1 <= x < lo <= y <= hi
      ensures t[x] >= t[y]
    {
      SegPermAt(s, t, lo, hi, x);
      var y' := SegPermFrom(s, t, lo, hi, y);
    }
  }

  // Median of three: afterwards ids[lo] >= ids[lo+1] >= ids[hi], which is what
  // stops the scans of the partition inside the segment.  The sum of the two indices
  // is an int.
  method MedianOfThree(ids: array<nat>, lo: nat, hi: nat)
    requires 1 <= lo && lo + 2 <= hi < ids.Length && lo + hi <= INT_MAX
    modifies ids
    ensures SegPerm(old(ids[..]), ids[..], lo, hi)
    ensures ids[lo] >= ids[lo + 1] >= ids[hi]
    ensures var k := (lo + hi) / 2;
            old(ids[lo] >= ids[k] >= ids[hi]) ==> ids[lo + 1] == old(ids[k])
  {
    ghost var s := ids[..];
    hide SegPerm, Swapped;
    var k := (lo + hi) / 2;
    Swap(ids, k, lo + 1, lo, hi);
    if ids[lo] < ids[hi] {
      ghost var t := ids[..];
      Swap(ids, lo, hi, lo, hi);
      SegPermTrans(s, t, ids[..], lo, hi);
    }
    if ids[lo + 1] < ids[hi] {
      ghost var t := ids[..];
      Swap(ids, lo + 1, hi, lo, hi);
      SegPermTrans(s, t, ids[..], lo, hi);
    }
    if ids[lo] < ids[lo + 1] {
      ghost var t := ids[..];
      Swap(ids, lo, lo + 1, lo, hi);
      SegPermTrans(s, t, ids[..], lo, hi);
    }
  }

  // The state of the partition: entries up to i are at least the pivot, entries
  // from j on are at most the pivot.
  ghost predicate Partitioning(s: seq<nat>, lo: nat, hi: nat, i: nat, j: nat) {
    && 1 <= lo && lo + 1 <= i && i < hi < |s| && lo + 2 <= j <= hi
    && (forall x :: lo <= x <= i ==> s[x] >= s[lo + 1])
    && (forall y :: j <= y <= hi ==> s[y] <= s[lo + 1])
  }

  // Where both scans stopped.
  ghost predicate Scanned(s: seq<nat>, lo: nat, hi: nat, i: nat, j: nat) {
    && 1 <= lo && lo + 1 <= i <= hi < |s| && lo + 1 <= j <= hi
    && s[i] <= s[lo + 1] <= s[j]
    && (forall x :: lo <= x < i ==> s[x] >= s[lo + 1])
    && (forall y :: j < y <= hi ==> s[y] <= s[lo + 1])
  }

  // The two scans and the swaps; no index test guards them.
  method Partition(ids: array<nat>, lo: nat, hi: nat) returns (i: nat, j: nat)
    requires 1 <= lo && lo + 2 <= hi < ids.Length && ids[lo] >= ids[lo + 1] >= ids[hi]
    modifies ids
    ensures SegPerm(old(ids[..]), ids[..], lo, hi)
    ensures Split(ids[..], Segment(lo, hi), i, j)
    ensures j < ids.Length && ids[j] == old(ids[lo + 1])
  {
    ghost var s := ids[..];
    i, j := lo + 1, hi;
    var a := ids[lo + 1];
    hide SegPerm, Swapped, Split, Partitioning, Scanned;
    StartPartition(s, lo, hi);
    while true
      invariant Partitioning(ids[..], lo, hi, i, j) && lo + 1 < ids.Length && a == ids[lo + 1] && i <= j
      invariant SegPerm(s, ids[..], lo, hi)
      decreases j
    {
      var i', j' := Scan(ids, lo, hi, i, j);
      i, j := i', j';
      if j < i { break; }
      ghost var t := ids[..];
      SwapStep(t, lo, hi, i, j);
      Swap(ids, i, j, lo, hi);
      SegPermTrans(s, t, ids[..], lo, hi);
    }
    PlacePivot(s, ids[..], lo, hi, i, j);
    PutPivot(ids, lo + 1, j, a);
  }

  lemma StartPartition(s: seq<nat>, lo: nat, hi: nat)
    requires 1 <= lo && lo + 2 <= hi < |s| && s[lo] >= s[lo + 1] >= s[hi]
    ensures Partitioning(s, lo, hi, lo + 1, hi) && SegPerm(s, s, lo, hi)
  {
  }

  // Both scans stopped before they crossed: the two entries change places.
  lemma SwapStep(t: seq<nat>, lo: nat, hi: nat, i: nat, j: nat)
    requires Scanned(t, lo, hi, i, j) && i <= j < hi && lo + 1 < i
    ensures Partitioning(Swapped(t, i, j), lo, hi, i, j) && Swapped(t, i, j)[lo + 1] == t[lo + 1]
  {
    hide SegPerm;
  }

  method PutPivot(ids: array<nat>, at: nat, j: nat, a: nat)
    requires at < ids.Length && j < ids.Length && a == ids[at]
    modifies ids
    ensures ids[..] == Swapped(old(ids[..]), at, j)
  {
    ids[at] := ids[j];
    ids[j] := a;
  }

  method Scan(ids: array<nat>, lo: nat, hi: nat, i0: nat, j0: nat) returns (i: nat, j: nat)
    requires Partitioning(ids[..], lo, hi, i0, j0) && i0 <= j0
    ensures lo + 1 < i <= hi && lo + 1 <= j < j0 <= hi < ids.Length && Scanned(ids[..], lo, hi, i, j)
  {
    i, j := i0, j0;
    var a := ids[lo + 1];
    assert forall x :: lo <= x <= i0 ==> ids[x] == ids[..][x];
    assert forall y :: j0 <= y <= hi ==> ids[y] == ids[..][y] <= a;
    i := i + 1;
    while ids[i] > a
      invariant i0 < i <= hi
      invariant forall x :: lo <= x < i ==> ids[x] >= a
      decreases hi - i
    {
      i := i + 1;
    }
    j := j - 1;
    while ids[j] < a
      invariant lo + 1 <= j < j0
      invariant forall y :: j < y <= hi ==> ids[y] <= a
      decreases j
    {
      j := j - 1;
    }
  }

  lemma PlacePivot(s: seq<nat>, t: seq<nat>, lo: nat, hi: nat, i: nat, j: nat)
    requires 1 <= lo && lo + 1 <= j < i <= hi < |t| && SegPerm(s, t, lo, hi) && Scanned(t, lo, hi, i, j)
    ensures SegPerm(s, Swapped(t, lo + 1, j), lo, hi)
    ensures Split(Swapped(t, lo + 1, j), Segment(lo, hi), i, j)
  {
    hide SegPerm, Swapped;
    SegPermSwap(t, lo, hi, lo + 1, j);
    SegPermTrans(s, t, Swapped(t, lo + 1, j), lo, hi);
  }

  // -------------------------------------------------------------- main loop

  // The stack array holds the postponed segments: number e in entries 2e+1, 2e+2.
  ghost predicate OnStack(stack: seq<int>, segs: seq<Segment>) {
    && |stack| == STACK_SIZE && 2 * |segs| < |stack|
    && forall e :: 0 <= e < |segs| ==> stack[2 * e + 1] == segs[e].lo && stack[2 * e + 2] == segs[e].hi
  }

  // Everything the main loop keeps: `s` is a permutation of `s0` within 1..n, in
  // order apart from the postponed segments and the current one.
  ghost predicate Sorting(s0: seq<nat>, s: seq<nat>, n: nat, segs: seq<Segment>, cur: Segment) {
    && n < |s0| && SegPerm(s0, s, 1, n)
    && Disjoint(segs + [cur], n) && SortedApart(s, n, segs + [cur]) && Halving(segs + [cur], n)
  }

  ghost function Work(segs: seq<Segment>): (w: nat) {
    if segs == [] then 0
    else
      var size := segs[|segs| - 1].Size();
      Work(segs[..|segs| - 1]) + (if size < 0 then 0 else 2 * size + 1)
  }

  /** mdb_midl_sort: terminates with a descending permutation, no int overflows, and
      the stack of 64 entries suffices, for every list of up to SORT_MAX entries. */
  method Sort(ids: array<nat>)
    requires ListAt(ids, 0) && ids[0] <= SORT_MAX
    modifies ids
    ensures ListAt(ids, 0) && ids[0] == old(ids[0])
    ensures Descending(Ids(ids)) && multiset(Ids(ids)) == multiset(old(Ids(ids)))
    ensures ids[ids[0] + 1..] == old(ids[ids[0] + 1..])
  {
    ghost var s0 := ids[..];
    var n := ids[0];
    SortArray(ids);
    SortedResult(s0, ids[..], n);
  }

  lemma SortedResult(s0: seq<nat>, s: seq<nat>, n: nat)
    requires n < |s0| && SegPerm(s0, s, 1, n) && SortedBetween(s, 1, n) && s0[0] == n
    ensures s[0] == n && Descending(s[1..n + 1]) && multiset(s[1..n + 1]) == multiset(s0[1..n + 1])
    ensures s[n + 1..] == s0[n + 1..]
  {
    SegPermAt(s0, s, 1, n, 0);
  }

  method SortArray(ids: array<nat>)
    requires 0 < ids.Length && ids[0] < ids.Length && ids[0] <= SORT_MAX
    modifies ids
    ensures SegPerm(old(ids[..]), ids[..], 1, old(ids[0]))
    ensures SortedBetween(ids[..], 1, old(ids[0]))
  {
    hide SegPerm, SortedBetween, BoundedBefore, OnStack, Sorting, Waiting, Split, Work;
    var istack := new int[STACK_SIZE];
    var n := ids[0];
    var ir: int, l := n, 1;
    var jstack := 0;
    ghost var s0, segs: seq<Segment> := ids[..], [];
    SortStarts(s0, n, istack[..]);
    while true
      invariant jstack == 2 * |segs| && istack.Length == STACK_SIZE && OnStack(istack[..], segs)
      invariant 1 <= l <= ir + 1 <= ids.Length && ir <= n <= SORT_MAX
      invariant Sorting(s0, ids[..], n, segs, Segment(l, ir))
      decreases Work(segs + [Segment(l, ir)])
    {
      ghost var s, cur := ids[..], Segment(l, ir);
      WorkOfSegments(segs, cur);
      if ir - l < SMALL {
        SortingBounds(s0, s, n, segs, cur);
        InsertionSort(ids, l, ir);
        SegmentSorted(s0, s, ids[..], n, segs, cur);
        if jstack == 0 { break; }
        PopSegment(istack[..], s0, ids[..], n, segs);
        ir := istack[jstack];
        l := istack[jstack - 1];
        jstack := jstack - 2;
        segs := segs[..|segs| - 1];
      } else {
        MedianOfThree(ids, l, ir);
        ghost var t := ids[..];
        var i, j := Partition(ids, l, ir);
        SegPermTrans(s, t, ids[..], l, ir);
        SegmentPartitioned(s0, s, ids[..], n, segs, cur, i, j);
        jstack := jstack + 2;
        if ir - i + 1 >= j - l {
          PushSegment(istack[..], segs, Segment(i, ir));
          istack[jstack] := ir;
          istack[jstack - 1] := i;
          segs := segs + [Segment(i, ir)];
          ir := j - 1;
        } else {
          PushSegment(istack[..], segs, Segment(l, j - 1));
          istack[jstack] := j - 1;
          istack[jstack - 1] := l;
          segs := segs + [Segment(l, j - 1)];
          l := i;
        }
      }
    }
  }

  lemma SortStarts(s0: seq<nat>, n: nat, stack: seq<int>)
    requires n < |s0| && |stack| == STACK_SIZE
    ensures OnStack(stack, []) && Sorting(s0, s0, n, [], Segment(1, n))
  {
    var cur := Segment(1, n);
    assert ([] + [cur])[0] == cur;
    assert Pow2(0) == 1;
  }

  lemma SortingBounds(s0: seq<nat>, s: seq<nat>, n: nat, segs: seq<Segment>, cur: Segment)
    requires Sorting(s0, s, n, segs, cur)
    ensures cur.hi < |s| && BoundedBefore(s, cur.lo, cur.hi)
  {
    var all := segs + [cur];
    assert all[|segs|] == cur;
    forall x, y | 1 <= x < cur.lo <= y <= cur.hi
      ensures s[x] >= s[y]
    {
      assert !Together(all, x, y);
    }
  }

  // What is left when the current segment is done.
  ghost predicate Waiting(s0: seq<nat>, s: seq<nat>, n: nat, segs: seq<Segment>) {
    && n < |s0| && SegPerm(s0, s, 1, n)
    && Disjoint(segs, n) && SortedApart(s, n, segs) && Halving(segs, n)
  }

  // A permutation inside the current segment is one of the whole list.
  lemma SegPermWiden(s0: seq<nat>, s: seq<nat>, t: seq<nat>, n: nat, lo: nat, hi: int)
    requires 1 <= lo <= hi + 1 <= n + 1 <= |s0| && SegPerm(s0, s, 1, n) && SegPerm(s, t, lo, hi)
    ensures SegPerm(s0, t, 1, n)
  {
    assert s[1..n + 1] == s[..lo][1..] + s[lo..hi + 1] + s[hi + 1..][..n - hi];
    assert t[1..n + 1] == t[..lo][1..] + t[lo..hi + 1] + t[hi + 1..][..n - hi];
    assert s[n + 1..] == s[hi + 1..][n - hi..];
    assert t[n + 1..] == t[hi + 1..][n - hi..];
    assert s[..1] == s[..lo][..1] && t[..1] == t[..lo][..1];
  }

  lemma SegmentSorted(s0: seq<nat>, s: seq<nat>, t: seq<nat>, n: nat, segs: seq<Segment>, cur: Segment)
    requires Sorting(s0, s, n, segs, cur)
    requires SegPerm(s, t, cur.lo, cur.hi) && SortedBetween(t, cur.lo, cur.hi)
    ensures Waiting(s0, t, n, segs)
    ensures segs == [] ==> SortedBetween(t, 1, n)
  {
    var all := segs + [cur];
    assert all[|segs|] == cur;
    assert forall k :: 0 <= k < |segs| ==> segs[k] == all[k];
    SegPermWiden(s0, s, t, n, cur.lo, cur.hi);
    SegPermKeepsApart(s, t, n, segs, cur);
    SegmentDone(t, n, segs, cur);
    if segs == [] {
      forall x, y | 1 <= x < y <= n
        ensures t[x] >= t[y]
      {
        assert !Together(segs, x, y);
      }
    }
  }

  lemma PopSegment(stack: seq<int>, s0: seq<nat>, s: seq<nat>, n: nat, segs: seq<Segment>)
    requires segs != [] && OnStack(stack, segs) && Waiting(s0, s, n, segs)
    ensures var top, below := segs[|segs| - 1], segs[..|segs| - 1];
            && 2 * |segs| < |stack| && stack[2 * |segs|] == top.hi && stack[2 * |segs| - 1] == top.lo
            && 1 <= top.lo <= top.hi + 1 <= n + 1
            && OnStack(stack, below) && Sorting(s0, s, n, below, top)
            && below + [top] == segs
  {
    var top, below := segs[|segs| - 1], segs[..|segs| - 1];
    assert below + [top] == segs;
    var e := |segs| - 1;
    assert stack[2 * e + 1] == top.lo && stack[2 * e + 2] == top.hi;
  }

  lemma PushSegment(stack: seq<int>, segs: seq<Segment>, seg: Segment)
    requires OnStack(stack, segs) && |segs| <= 27
    ensures 2 * |segs| + 2 < |stack|
    ensures OnStack(stack[2 * |segs| + 2 := seg.hi][2 * |segs| + 1 := seg.lo], segs + [seg])
  {
  }

  lemma SegmentPartitioned(s0: seq<nat>, s: seq<nat>, t: seq<nat>, n: nat, segs: seq<Segment>, cur: Segment, i: nat, j: nat)
    requires Sorting(s0, s, n, segs, cur) && n <= INT_MAX && cur.hi - cur.lo >= SMALL
    requires SegPerm(s, t, cur.lo, cur.hi) && Split(t, cur, i, j)
    ensures |segs| <= 27 && 1 <= cur.lo < j < i <= cur.hi
    ensures var left, right := Segment(cur.lo, j - 1), Segment(i, cur.hi);
            if cur.hi - i + 1 >= j - cur.lo
            then Sorting(s0, t, n, segs + [right], left) && Work(segs + [right] + [left]) < Work(segs + [cur])
            else Sorting(s0, t, n, segs + [left], right) && Work(segs + [left] + [right]) < Work(segs + [cur])
  {
    hide SortedApart, Disjoint, Halving, Work, SegPerm;
    var left, right := Segment(cur.lo, j - 1), Segment(i, cur.hi);
    SortingDepth(s0, s, n, segs, cur);
    SegPermWiden(s0, s, t, n, cur.lo, cur.hi);
    SegPermKeepsApart(s, t, n, segs, cur);
    if cur.hi - i + 1 >= j - cur.lo {
      SegmentSplit(t, n, segs, cur, i, j, right, left);
      HalvingSplit(segs, cur, n, right, left);
      WorkOfSplit(segs, cur, right, left);
    } else {
      SegmentSplit(t, n, segs, cur, i, j, left, right);
      HalvingSplit(segs, cur, n, left, right);
      WorkOfSplit(segs, cur, left, right);
    }
  }

  // A segment long enough to be partitioned lies at depth 27 or less.
  lemma SortingDepth(s0: seq<nat>, s: seq<nat>, n: nat, segs: seq<Segment>, cur: Segment)
    requires Sorting(s0, s, n, segs, cur) && n <= INT_MAX && cur.hi - cur.lo >= SMALL
    ensures |segs| <= 27 && 1 <= cur.lo && cur.hi <= n < |s0| == |s|
  {
    hide SegPerm, SortedApart, Pow2;
    assert (segs + [cur])[|segs|] == cur;
    MulMono(9, cur.Size(), Pow2(|segs|));
    DepthBound(|segs|);
    SegPermSize(s0, s, 1, n);
  }

  lemma MulMono(a: int, b: int, c: nat)
    requires a <= b
    ensures a * c <= b * c
  {
  }

  lemma SegPermSize(s: seq<nat>, t: seq<nat>, lo: nat, hi: int)
    requires SegPerm(s, t, lo, hi)
    ensures |s| == |t|
  {
  }

  lemma WorkOfSegments(segs: seq<Segment>, cur: Segment)
    requires cur.lo <= cur.hi + 1
    ensures Work(segs) < Work(segs + [cur])
  {
    assert (segs + [cur])[..|segs|] == segs;
  }

  lemma WorkOfSplit(segs: seq<Segment>, cur: Segment, a: Segment, b: Segment)
    requires 0 <= a.Size() && 0 <= b.Size() && a.Size() + b.Size() < cur.Size()
    ensures Work(segs + [a] + [b]) < Work(segs + [cur])
  {
    assert (segs + [cur])[..|segs|] == segs && (segs + [a])[..|segs|] == segs;
    assert (segs + [a] + [b])[..|segs| + 1] == segs + [a];
  }
}
