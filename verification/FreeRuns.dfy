// Page runs in the reclaimed list me_pghead: finding and removing one in
// mdb_page_alloc, putting one back in mdb_ovpage_free, appending one to
// mt_free_pgs (client/mdb.c:2467-2479, 2593-2597, 6581-6589; client/midl.c).
module FreeRuns {
  import opened IdList

  // The pages p .. p+num-1 in the order in which a list holds them.
  ghost function Run(p: nat, num: nat): (r: seq<nat>)
    ensures |r| == num
    ensures forall k :: 0 <= k < num ==> r[k] == p + num - 1 - k
  {
    seq(num, k requires 0 <= k < num => p + num - 1 - k)
  }

  // s[hi-num..hi] is the run that starts at page s[hi-1].
  ghost predicate RunAt(s: seq<nat>, hi: nat, num: nat) {
    0 < num <= hi <= |s| && s[hi - num..hi] == Run(s[hi - 1], num)
  }

  ghost predicate ContainsRun(s: seq<nat>, p: nat, num: nat) {
    forall q :: p <= q < p + num ==> q in s
  }

  ghost predicate HasRun(s: seq<nat>, num: nat) {
    exists p :: ContainsRun(s, p, num)
  }

  // On a strictly descending list, entries d places apart differ by at least d.
  lemma {:induction false} Spread(s: seq<nat>, i: nat, j: nat)
    requires StrictlyDescending(s) && i <= j < |s|
    ensures s[i] >= s[j] + (j - i)
    decreases j - i
  {
    if i < j { Spread(s, i + 1, j); }
  }

  /** One comparison of the two ends decides whether the entries between them
      are consecutive pages. */
  lemma RunByEnds(s: seq<nat>, hi: nat, num: nat)
    requires StrictlyDescending(s) && 0 < num <= hi <= |s|
    ensures s[hi - num] == s[hi - 1] + (num - 1) <==> RunAt(s, hi, num)
  {
    var p := s[hi - 1];
    if s[hi - num] == p + (num - 1) {
      forall k | 0 <= k < num
        ensures s[hi - num + k] == Run(p, num)[k]
      {
        Spread(s, hi - num, hi - num + k);
        Spread(s, hi - num + k, hi - 1);
      }
      assert s[hi - num..hi] == Run(p, num);
    }
    if RunAt(s, hi, num) {
      assert s[hi - num..hi][0] == Run(p, num)[0];
    }
  }

  lemma LargerFirst(s: seq<nat>, i: nat, j: nat)
    requires StrictlyDescending(s) && i < |s| && j < |s| && s[i] > s[j]
    ensures i < j
  {
  }

  // A run of pages in a strictly descending list occupies consecutive places.
  lemma {:induction false} RunIsContiguous(s: seq<nat>, p: nat, num: nat) returns (hi: nat)
    requires StrictlyDescending(s) && num > 0
    requires ContainsRun(s, p, num)
    ensures num <= hi <= |s| && s[hi - 1] == p && s[hi - num] == p + (num - 1)
    decreases num
  {
    assert p in s;
    var k :| 0 <= k < |s| && s[k] == p;
    hi := k + 1;
    if num > 1 {
      var above := RunIsContiguous(s, p + 1, num - 1);
      LargerFirst(s, above - 1, k);
      if above < k {
        Spread(s, above - 1, k);
      }
    }
  }

  /** The search loop of mdb_page_alloc: from the tail, the first place whose two
      ends are num-1 pages apart.  Result 0 means that no run of num pages exists. */
  method FindRun(mop: array<nat>, num: nat) returns (i: nat)
    requires num > 0 && ListAt(mop, 0) && StrictlyDescending(Ids(mop))
    ensures i == 0 <==> !HasRun(Ids(mop), num)
    ensures i > 0 ==> RunAt(Ids(mop), i, num)
    ensures forall k :: i < k <= mop[0] ==> !RunAt(Ids(mop), k, num)
  {
    hide StrictlyDescending, RunAt, HasRun, ContainsRun, Run;
    var mopLen := mop[0];
    var n2 := num - 1;
    ghost var s := Ids(mop);
    if mopLen > n2 {
      i := mopLen;
      while true
        invariant n2 < i <= mopLen
        invariant forall k :: i < k <= mopLen ==> !RunAt(s, k, num)
        decreases i
      {
        RunByEnds(s, i, num);
        if mop[i - n2] == mop[i] + n2 {
          RunIsRun(s, i, num);
          return;
        }
        i := i - 1;
        if i <= n2 { break; }
      }
    }
    i := 0;
    NoRun(s, num);
  }

  lemma RunIsRun(s: seq<nat>, hi: nat, num: nat)
    requires RunAt(s, hi, num)
    ensures ContainsRun(s, s[hi - 1], num) && HasRun(s, num)
  {
    var p := s[hi - 1];
    forall q | p <= q < p + num
      ensures q in s
    {
      assert s[hi - num..hi][p + num - 1 - q] == q;
    }
    assert ContainsRun(s, p, num);
  }

  lemma NoRun(s: seq<nat>, num: nat)
    requires num > 0 && StrictlyDescending(s)
    requires forall k :: num <= k <= |s| ==> !RunAt(s, k, num)
    ensures !HasRun(s, num) && forall k | 0 < k <= |s| :: !RunAt(s, k, num)
  {
    if HasRun(s, num) {
      var p :| ContainsRun(s, p, num);
      var hi := RunIsContiguous(s, p, num);
      RunByEnds(s, hi, num);
    }
  }

  /** Handing out the run that ends at place i: the stragglers move down. */
  method RemoveRun(mop: array<nat>, i: nat, num: nat)
    requires ListAt(mop, 0) && 0 < num <= i <= mop[0]
    modifies mop
    ensures ListAt(mop, 0) && Ids(mop) == old(Ids(mop)[..i - num] + Ids(mop)[i..])
  {
    ghost var s := Ids(mop);
    var mopLen := mop[0] - num;
    mop[0] := mopLen;
    var from: nat, j: nat := i, i - num;
    while j < mopLen
      invariant i - num <= j <= mopLen && from == j + num
      invariant mop[0] == mopLen
      invariant forall x :: 1 <= x <= i - num ==> mop[x] == s[x - 1]
      invariant forall x :: i - num < x <= j ==> mop[x] == s[x + num - 1]
      invariant forall x :: from < x <= |s| ==> mop[x] == s[x - 1]
    {
      j, from := j + 1, from + 1;
      mop[j] := mop[from];
    }
    assert Ids(mop) == s[..i - num] + s[i..];
  }

  /** The removed entries are exactly the pages of the run. */
  lemma RemoveRunKeepsOrder(s: seq<nat>, i: nat, num: nat)
    requires StrictlyDescending(s) && RunAt(s, i, num)
    ensures StrictlyDescending(s[..i - num] + s[i..])
    ensures forall q :: q in s[..i - num] + s[i..] <==> q in s && !(s[i - 1] <= q < s[i - 1] + num)
  {
    hide RunAt, Run;
    RunEnds(s, i, num);
    var t, p := s[..i - num] + s[i..], s[i - 1];
    forall q | q in s && !(p <= q < p + num)
      ensures q in t
    {
      var k :| 0 <= k < |s| && s[k] == q;
      assert q == t[if k < i then k else k - num];
    }
  }

  lemma RunEnds(s: seq<nat>, i: nat, num: nat)
    requires RunAt(s, i, num)
    ensures 0 < num <= i <= |s| && s[i - num] == s[i - 1] + num - 1
  {
    assert s[i - num] == s[i - num..i][0];
  }

  /** mdb_ovpage_free, release: insert the run pg .. pg+ov-1 into the list. */
  method InsertRun(mop: array<nat>, pg: nat, ov: nat) returns (ghost k: nat)
    requires ListAt(mop, 0) && mop[0] + ov < mop.Length
    requires StrictlyDescending(Ids(mop))
    requires forall q :: pg <= q < pg + ov ==> q !in Ids(mop)
    modifies mop
    ensures ListAt(mop, 0) && StrictlyDescending(Ids(mop))
    ensures k <= old(mop[0]) && Ids(mop) == old(Ids(mop))[..k] + Run(pg, ov) + old(Ids(mop))[k..]
  {
    hide StrictlyDescending;
    ghost var s := Ids(mop);
    var j: nat := mop[0] + ov;
    var i: nat := mop[0];
    while i > 0 && mop[i] < pg
      invariant i <= |s| && j == i + ov && mop[0] == |s|
      invariant forall x :: 1 <= x <= i ==> mop[x] == s[x - 1]
      invariant forall x :: j < x <= |s| + ov ==> mop[x] == s[x - ov - 1]
      invariant forall k :: i <= k < |s| ==> s[k] < pg
    {
      mop[j] := mop[i];
      j := j - 1;
      i := i - 1;
    }
    k := i;
    InsertRunKeepsOrder(s, i, pg, ov);
    WriteRun(mop, i, j, pg);
    mop[0] := mop[0] + ov;
    assert Ids(mop) == s[..i] + Run(pg, ov) + s[i..];
  }

  // The pages pg .. pg+(hi-lo)-1 go to places hi down to lo+1.
  method WriteRun(ids: array<nat>, lo: nat, hi: nat, pg: nat)
    requires lo <= hi < ids.Length
    modifies ids
    ensures forall x :: lo < x <= hi ==> ids[x] == pg + (hi - x)
    ensures forall x :: 0 <= x < ids.Length && !(lo < x <= hi) ==> ids[x] == old(ids[x])
  {
    var j, p := hi, pg;
    while j > lo
      invariant lo <= j <= hi && p == pg + (hi - j)
      invariant forall x :: j < x <= hi ==> ids[x] == pg + (hi - x)
      invariant forall x :: 0 <= x < ids.Length && !(j < x <= hi) ==> ids[x] == old(ids[x])
    {
      ids[j] := p;
      j := j - 1;
      p := p + 1;
    }
  }

  lemma InsertRunKeepsOrder(s: seq<nat>, i: nat, pg: nat, ov: nat)
    requires StrictlyDescending(s) && i <= |s|
    requires forall q :: pg <= q < pg + ov ==> q !in s
    requires forall k :: i <= k < |s| ==> s[k] < pg
    requires i > 0 ==> s[i - 1] >= pg
    ensures StrictlyDescending(s[..i] + Run(pg, ov) + s[i..])
  {
    assert forall k :: 0 <= k < i ==> s[k] in s && s[k] >= s[i - 1];
  }

  /** mdb_midl_append_range, once there is room: the run is appended whole. */
  method AppendRange(ids: array<nat>, id: nat, n: nat)
    requires ListAt(ids, 0) && ids[0] + n < ids.Length
    modifies ids
    ensures ListAt(ids, 0) && Ids(ids) == old(Ids(ids)) + Run(id, n)
  {
    ghost var s := Ids(ids);
    var len := ids[0];
    ids[0] := len + n;
    WriteRun(ids, len, len + n, id);
    assert Ids(ids) == s + Run(id, n);
  }
}
