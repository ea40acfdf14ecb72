// How long a list mdb_midl_sort can take (client/midl.c:220-279).  Its indices are
// ints, and the middle of a segment is half the sum of its two ends.  Up to SORT_MAX
// entries no such sum overflows, which is part of the proof of IdSort.Sort; for every
// greater length there is a list on which one does.
module SortLimits {
  import opened IdList
  import opened IdSort
  import opened PageState
  import opened WriteTxn
  import opened FreelistSave

  // A list of n different entries whose first pivot is greater than nine of them.
  ghost predicate NinthPivot(s: seq<nat>, n: nat) {
    && 20 < n < |s| && s[0] == n && Distinct(s, n)
    && s[1] >= s[(1 + n) / 2] == 9 >= s[n]
  }

  ghost predicate Distinct(s: seq<nat>, n: nat) {
    n < |s| && NoDups(s[1..n + 1]) && RunOf(0, 9) <= Elems(s[1..n + 1])
  }

  // Descending, but for two entries that have changed places.
  function NinthList(n: nat): (s: seq<nat>)
    requires n > 20
    ensures |s| == n + 1
  {
    seq(n + 1, x requires 0 <= x <= n =>
      if x == 0 then n else if x == (1 + n) / 2 then 9 else if x == n - 9 then n - (1 + n) / 2 else n - x)
  }

  lemma NinthListIs(n: nat)
    requires n > 20
    ensures NinthPivot(NinthList(n), n)
  {
    var s := NinthList(n);
    var t := s[1..n + 1];
    forall v | v in RunOf(0, 9)
      ensures v in Elems(t)
    {
      assert t[n - v - 1] == s[n - v] == v;
    }
  }

  // Nine entries stand behind the pivot.
  lemma NineBehind(all: seq<nat>, j: nat)
    requires NoDups(all) && RunOf(0, 9) <= Elems(all) && j < |all| && all[j] == 9
    requires forall x :: 0 <= x < j ==> all[x] >= 9
    requires forall x :: j < x < |all| ==> all[x] <= 9
    ensures |all| - j - 1 == 9
  {
    hide RunOf;
    var tail := all[j + 1..];
    forall x, y | 0 <= x < y < |tail|
      ensures tail[x] != tail[y]
    {
      assert tail[x] == all[j + 1 + x] && tail[y] == all[j + 1 + y];
    }
    forall x | 0 <= x < |tail|
      ensures tail[x] < 9
    {
      assert tail[x] == all[j + 1 + x] != all[j];
    }
    BoundedCount(tail, 9);
    forall v | v in RunOf(0, 9)
      ensures v in Elems(tail)
    {
      var x :| 0 <= x < |all| && all[x] == v;
      assert tail[x - j - 1] == v;
    }
    RunSize(0, 9);
    SubsetSize(RunOf(0, 9), Elems(tail));
    ElemsSize(tail);
  }

  lemma PermDistinct(s: seq<nat>, t: seq<nat>, n: nat)
    requires Distinct(s, n) && SegPerm(s, t, 1, n)
    ensures Distinct(t, n)
  {
    hide NoDups;
    SortedSame(s[1..n + 1], t[1..n + 1]);
  }

  lemma NoTwin(all: seq<nat>, x: nat)
    requires NoDups(all) && x + 1 < |all|
    ensures all[x] != all[x + 1]
  {
  }

  // The split around the pivot 9: all but nine entries come before it.
  lemma SplitSides(t: seq<nat>, n: nat, i: nat, j: nat)
    requires Distinct(t, n) && Split(t, Segment(1, n), i, j) && t[j] == 9
    ensures 1 < j < i == j + 1 && i + 8 == n
  {
    hide NoDups;
    var all := t[1..n + 1];
    assert all[j - 1] == t[j] && all[j] == t[j + 1];
    NoTwin(all, j - 1);
    forall x | 0 <= x < j - 1
      ensures all[x] >= 9
    {
      assert all[x] == t[x + 1] && t[x + 1] >= t[j];
    }
    forall x | j - 1 < x < |all|
      ensures all[x] <= 9
    {
      assert all[x] == t[x + 1];
    }
    NineBehind(all, j - 1);
  }

  lemma {:induction false} RunSize(p: nat, num: nat)
    ensures |RunOf(p, num)| == num
    decreases num
  {
    if num > 0 {
      RunSize(p, num - 1);
    }
  }

  lemma {:induction false} SubsetSize(a: set<nat>, b: set<nat>)
    requires a <= b
    ensures |a| <= |b|
  {
    assert b == a + (b - a);
  }

  lemma {:induction false} ElemsSize(s: seq<nat>)
    ensures |Elems(s)| <= |s|
  {
    if s != [] {
      ElemsSize(s[..|s| - 1]);
      assert Elems(s) == Elems(s[..|s| - 1]) + {s[|s| - 1]};
    }
  }

  /** The first pass of the sort on such a list of more than SORT_MAX entries: the
      segment it goes on with is partitioned in turn, and the sum of its two ends is
      no longer an int. */
  method FirstPass(ids: array<nat>) returns (l: int, ir: int)
    requires 0 < ids.Length && SORT_MAX < ids[0] < INT_MAX && NinthPivot(ids[..], ids[0])
    modifies ids
    ensures 1 <= l && l + SMALL <= ir == old(ids[0])
    ensures l + ir > INT_MAX
  {
    hide SegPerm, Split, Distinct;
    ghost var s, n := ids[..], ids[0];
    l, ir := 1, ids[0];
    MedianOfThree(ids, l, ir);
    ghost var t := ids[..];
    var i, j := Partition(ids, l, ir);
    SegPermTrans(s, t, ids[..], 1, n);
    PermDistinct(s, ids[..], n);
    SplitSides(ids[..], n, i, j);
    if ir - i + 1 >= j - l {
      ir := j - 1;
    } else {
      l := i;
    }
  }

  /** For every greater length that fits an int some list overflows: at INT_MAX already
      the first sum, below it the sum that follows the first pass on the list given. */
  method SomeListOverflows(n: nat) returns (l: int, ir: int)
    requires SORT_MAX < n <= INT_MAX
    ensures 1 <= l && l + SMALL <= ir == n
    ensures l + ir > INT_MAX
  {
    hide NinthPivot, NinthList;
    l, ir := 1, n;
    if n < INT_MAX {
      var list := NinthList(n);
      NinthListIs(n);
      PivotFacts(list, n);
      var ids := new nat[n + 1](x requires 0 <= x <= n => list[x]);
      assert ids[..] == list;
      l, ir := FirstPass(ids);
    }
  }

  lemma PivotFacts(s: seq<nat>, n: nat)
    requires NinthPivot(s, n)
    ensures |s| > 0 && s[0] == n
  {
  }
}
