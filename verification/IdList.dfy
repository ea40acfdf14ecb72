// ID lists of the page store: client/midl.c and the list arithmetic that
// client/mdb.c performs on them.
//
// A list lives in an array `ids`: `ids[0]` is the number of entries and
// `ids[1..ids[0]+1]` are the entries, in descending order once sorted.  The
// allocated capacity, kept by the original in the word before the list, is
// `ids.Length - 1` here.
module IdList {

  // An MDB_ID is an unsigned 64-bit word; its top value is the scan delimiter.
  const ID_MAX: nat := 0xFFFF_FFFF_FFFF_FFFF

  // The largest number of entries of a dirty list, and the step in which free lists grow.
  const IDL_UM_MAX: nat := 0x1FFFF

  ghost predicate Descending(s: seq<nat>) {
    forall i, j :: 0 <= i < j < |s| ==> s[i] >= s[j]
  }

  ghost predicate StrictlyDescending(s: seq<nat>) {
    forall i, j :: 0 <= i < j < |s| ==> s[i] > s[j]
  }

  // The list that starts at index `off` of the array.
  ghost predicate ListAt(a: array<nat>, off: nat)
    reads a
  {
    off < a.Length && off + a[off] < a.Length
  }

  ghost function IdsAt(a: array<nat>, off: nat): (s: seq<nat>)
    reads a
    requires ListAt(a, off)
    ensures |s| == a[off]
  {
    a[off + 1..off + 1 + a[off]]
  }

  ghost function Ids(a: array<nat>): (s: seq<nat>)
    reads a
    requires ListAt(a, 0)
    ensures |s| == a[0]
  {
    IdsAt(a, 0)
  }

  // -------------------------------------------------------------- searching

  /** mdb_midl_search: binary search of a descending list. */
  method Search(ids: array<nat>, id: nat) returns (cursor: nat)
    requires ListAt(ids, 0)
    requires Descending(Ids(ids))
    ensures 1 <= cursor <= ids[0] + 1
    ensures id in Ids(ids) <==> cursor <= ids[0] && ids[cursor] == id
    ensures id !in Ids(ids) ==>
              (forall k :: 1 <= k < cursor ==> ids[k] > id) &&
              (forall k :: cursor <= k <= ids[0] ==> ids[k] < id)
  {
    var base := 0;
    cursor := 1;
    var val := 0;
    var n := ids[0];
    assert forall k :: 1 <= k <= ids[0] ==> ids[k] == Ids(ids)[k - 1];
    assert forall k, l :: 1 <= k < l <= ids[0] ==> ids[k] >= ids[l];
    while 0 < n
      invariant base + n <= ids[0]
      invariant forall k :: 1 <= k <= base ==> ids[k] > id
      invariant forall k :: base + n < k <= ids[0] ==> ids[k] < id
      invariant val == 0 ==> base == 0 && n == ids[0] && cursor == 1
      invariant val < 0 ==> cursor == base + n + 1
      invariant val > 0 ==> cursor == base
      invariant 1 <= cursor <= ids[0] + 1
      decreases n
    {
      var pivot := n / 2;
      cursor := base + pivot + 1;
      if ids[cursor] < id {
        val := -1;
        n := pivot;
      } else if ids[cursor] > id {
        val := 1;
        base := cursor;
        n := n - (pivot + 1);
      } else {
        assert Ids(ids)[cursor - 1] == id;
        return;
      }
    }
    if val > 0 {
      cursor := cursor + 1;
    }
  }

  // ---------------------------------------------------------------- merging

  /** mdb_midl_xmerge: merge the list at `merge[off..]` into `idl`, in place and
      from the tail.  The second list may sit in the tail of the same array, as
      long as it starts behind the merged result (client/mdb.c:3590-3607). */
  method XMerge(idl: array<nat>, merge: array<nat>, off: nat)
    requires ListAt(idl, 0) && ListAt(merge, off)
    requires Descending(Ids(idl)) && Descending(IdsAt(merge, off))
    requires forall x :: x in IdsAt(merge, off) ==> x <= ID_MAX
    requires idl[0] + merge[off] < idl.Length
    requires idl == merge ==> idl[0] + merge[off] < off
    modifies idl
    ensures ListAt(idl, 0) && idl[0] == old(idl[0] + merge[off])
    ensures Descending(Ids(idl))
    ensures multiset(Ids(idl)) == multiset(old(Ids(idl))) + multiset(old(IdsAt(merge, off)))
    ensures idl[idl[0] + 1..] == old(idl[idl[0] + merge[off] + 1..])
  {
    hide Merge, Descending;
    ghost var a, b := Ids(idl), IdsAt(merge, off);
    MergeIsSortedUnion(a, b);
    assert forall x :: 0 <= x < |b| ==> b[x] in b;
    MergeInto(idl, merge, off, a, b);
    assert Ids(idl) == Merge(a, b);
  }

  // The body of mdb_midl_xmerge; `a` and `b` name the two lists.
  method MergeInto(idl: array<nat>, merge: array<nat>, off: nat, ghost a: seq<nat>, ghost b: seq<nat>)
    requires |a| + |b| < idl.Length && idl[0] == |a| && idl[1..|a| + 1] == a
    requires off + |b| < merge.Length && merge[off] == |b| && merge[off + 1..off + 1 + |b|] == b
    requires forall x :: 0 <= x < |b| ==> b[x] <= ID_MAX
    requires idl == merge ==> |a| + |b| < off
    modifies idl
    ensures idl[0] == |a| + |b| && idl[1..|a| + |b| + 1] == Merge(a, b)
    ensures idl[|a| + |b| + 1..] == old(idl[|a| + |b| + 1..])
  {
    hide Merge, Merging;
    var i: nat, j: nat := merge[off], idl[0];
    var k: nat := i + j;
    var total := k;
    ghost var rest := idl[total + 1..];
    MergeStarts(idl[..], rest, a, b);
    idl[0] := ID_MAX;
    while i > 0
      invariant i <= |b| && k == i + j <= total
      invariant Merging(idl[..], j, k, rest, a, b, i)
    {
      var mergeId := merge[off + i];
      assert mergeId == b[i - 1] by {
        MergingKeepsRest(idl[..], j, k, rest, a, b, i);
        assert idl == merge ==> mergeId == idl[..][1 + total..][off + i - total - 1];
      }
      j, k := ShiftSmaller(idl, mergeId, j, k, rest, a, b, i);
      MergeTakesNew(idl[..], j, k, rest, a, b, i);
      idl[k] := mergeId;
      k := k - 1;
      i := i - 1;
    }
    MergeEnds(idl[..], j, k, rest, a, b);
    idl[0] := total;
    assert idl[1..] == Merge(a, b) + rest;
  }

  // The inner loop of mdb_midl_xmerge: entries of the first list below `mergeId`
  // move up to their final place.
  method ShiftSmaller(idl: array<nat>, mergeId: nat, j0: nat, k0: nat,
                      ghost rest: seq<nat>, ghost a: seq<nat>, ghost b: seq<nat>, ghost i: nat)
    returns (j: nat, k: nat)
    requires 0 < i <= |b| && b[i - 1] == mergeId <= ID_MAX
    requires k0 == i + j0 && Merging(idl[..], j0, k0, rest, a, b, i)
    modifies idl
    ensures j <= j0 && k == i + j < idl.Length && Merging(idl[..], j, k, rest, a, b, i)
    ensures idl[j] >= mergeId
  {
    hide Merge;
    j, k := j0, k0;
    var oldId := idl[j];
    while oldId < mergeId
      invariant j <= j0 && k == i + j < idl.Length && Merging(idl[..], j, k, rest, a, b, i)
      invariant oldId == idl[j]
      decreases j
    {
      MergeTakesOld(idl[..], j, k, rest, a, b, i);
      idl[k] := oldId;
      k := k - 1;
      j := j - 1;
      oldId := idl[j];
    }
  }

  // The merge as the tail-first loop builds it: the smaller of the two last
  // entries goes last, the second list's entry first on a tie.
  ghost function Merge(a: seq<nat>, b: seq<nat>): (s: seq<nat>)
    ensures |s| == |a| + |b|
    decreases |a| + |b|
  {
    if b == [] then a
    else if a != [] && a[|a| - 1] < b[|b| - 1] then Merge(a[..|a| - 1], b) + [a[|a| - 1]]
    else Merge(a, b[..|b| - 1]) + [b[|b| - 1]]
  }

  // The array `s` in mid-merge: a[..j] and b[..i] are still to be placed, the
  // top of the merged list is already in s[k+1..total+1].
  ghost predicate Merging(s: seq<nat>, j: nat, k: nat, rest: seq<nat>, a: seq<nat>, b: seq<nat>, i: nat) {
    && j <= |a| && i <= |b| && k == i + j && |s| == 1 + |a| + |b| + |rest|
    && s[0] == ID_MAX
    && s[1..j + 1] == a[..j]
    && Merge(a[..j], b[..i]) + s[k + 1..] == Merge(a, b) + rest
  }

  lemma MergeStarts(s: seq<nat>, rest: seq<nat>, a: seq<nat>, b: seq<nat>)
    requires |s| == 1 + |a| + |b| + |rest| && s[1..|a| + 1] == a && s[1 + |a| + |b|..] == rest
    ensures Merging(s[0 := ID_MAX], |a|, |a| + |b|, rest, a, b, |b|)
  {
    assert a[..|a|] == a && b[..|b|] == b;
    assert s[0 := ID_MAX][1..|a| + 1] == a;
    assert s[0 := ID_MAX][1 + |a| + |b|..] == rest;
  }

  lemma MergeTakesOld(s: seq<nat>, j: nat, k: nat, rest: seq<nat>, a: seq<nat>, b: seq<nat>, i: nat)
    requires 0 < i <= |b| && Merging(s, j, k, rest, a, b, i)
    requires s[j] < b[i - 1] <= ID_MAX
    ensures j > 0 && Merging(s[k := s[j]], j - 1, k - 1, rest, a, b, i)
  {
    assert s[1..j + 1][j - 1] == a[j - 1];
    assert a[..j][..j - 1] == a[..j - 1];
    assert s[k := s[j]][1..j] == s[1..j + 1][..j - 1];
    assert s[k := s[j]][k..] == [s[j]] + s[k + 1..];
  }

  lemma MergeTakesNew(s: seq<nat>, j: nat, k: nat, rest: seq<nat>, a: seq<nat>, b: seq<nat>, i: nat)
    requires 0 < i <= |b| && Merging(s, j, k, rest, a, b, i)
    requires s[j] >= b[i - 1]
    ensures Merging(s[k := b[i - 1]], j, k - 1, rest, a, b, i - 1)
  {
    assert j > 0 ==> s[1..j + 1][j - 1] == a[j - 1];
    assert b[..i][..i - 1] == b[..i - 1];
    assert s[k := b[i - 1]][1..j + 1] == s[1..j + 1];
    assert s[k := b[i - 1]][k..] == [b[i - 1]] + s[k + 1..];
  }

  // What lies behind the merged list never changes.
  lemma MergingKeepsRest(s: seq<nat>, j: nat, k: nat, rest: seq<nat>, a: seq<nat>, b: seq<nat>, i: nat)
    requires Merging(s, j, k, rest, a, b, i)
    ensures k <= |a| + |b| && |s| == 1 + |a| + |b| + |rest| && s[1 + |a| + |b|..] == rest
  {
    var m := Merge(a[..j], b[..i]);
    assert (m + s[k + 1..])[|a| + |b|..] == s[1 + |a| + |b|..];
    assert (Merge(a, b) + rest)[|a| + |b|..] == rest;
  }

  lemma MergeEnds(s: seq<nat>, j: nat, k: nat, rest: seq<nat>, a: seq<nat>, b: seq<nat>)
    requires Merging(s, j, k, rest, a, b, 0)
    ensures |s| == 1 + |a| + |b| + |rest| && s[1..] == Merge(a, b) + rest
  {
    assert b[..0] == [];
    assert Merge(a[..j], b[..0]) == a[..j];
    SplitAfter(s, j);
  }

  lemma SplitAfter(s: seq<nat>, j: nat)
    requires j + 1 <= |s|
    ensures s[1..] == s[1..j + 1] + s[j + 1..]
  {
  }

  /** The tail-first merge of two descending lists is their descending multiset union. */
  lemma {:induction false} MergeIsSortedUnion(a: seq<nat>, b: seq<nat>)
    requires Descending(a) && Descending(b)
    ensures Descending(Merge(a, b))
    ensures multiset(Merge(a, b)) == multiset(a) + multiset(b)
    decreases |a| + |b|
  {
    if b == [] {
    } else if a != [] && a[|a| - 1] < b[|b| - 1] {
      MergeIsSortedUnion(a[..|a| - 1], b);
      AppendLast(Merge(a[..|a| - 1], b), a, b);
    } else {
      MergeIsSortedUnion(a, b[..|b| - 1]);
      AppendLast(Merge(a, b[..|b| - 1]), b, a);
    }
  }

  lemma AppendLast(m: seq<nat>, a: seq<nat>, b: seq<nat>)
    requires a != [] && Descending(a) && Descending(b)
    requires b == [] || a[|a| - 1] <= b[|b| - 1]
    requires Descending(m) && multiset(m) == multiset(a[..|a| - 1]) + multiset(b)
    ensures Descending(m + [a[|a| - 1]])
    ensures multiset(m + [a[|a| - 1]]) == multiset(a) + multiset(b)
  {
    var init, last := a[..|a| - 1], a[|a| - 1];
    assert a == init + [last];
    forall i | 0 <= i < |m|
      ensures m[i] >= last
    {
      assert m[i] in multiset(m);
      assert m[i] in init || m[i] in b;
    }
  }
}
