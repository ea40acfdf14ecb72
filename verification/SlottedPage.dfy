/**
  * The slotted B-tree pages of LMDB: an array of node offsets growing up from the page header and
  * variable-sized nodes growing down from the end of the page.  Adding, deleting and re-keying a
  * node move bytes and offsets; read as a sequence of nodes, the page gains, loses or changes
  * exactly that node, and the nodes always tile the used part of the page.
  *
  * Node headers and contents are bytes of the page.  The offset array and the two free-space
  * bounds are kept beside the bytes; no operation writes a byte below the upper bound.
  */
module SlottedPage {
  import opened ByteSeq

  const PAGEHDRSZ: nat := 16
  const NODESIZE: nat := 8
  const PGNO_SIZE: nat := 8
  const F_BIGDATA: nat := 1

  function Even(n: nat): (r: nat)
    ensures r % 2 == 0 && n <= r <= n + 1
  {
    n + n % 2
  }

  // ---------------------------------------------------------------- nodes in bytes

  function U16(mem: Bytes, at: nat): (r: nat)
    requires at + 2 <= |mem|
    ensures r < 65536
  {
    var low: int, high: int := mem[at], mem[at + 1];
    low + 256 * high
  }

  function KeySize(mem: Bytes, ptr: nat): nat
    requires ptr + NODESIZE <= |mem|
  {
    U16(mem, ptr + 6)
  }

  // A branch node has no data; big data is the number of an overflow page.
  function DataSize(mem: Bytes, leaf: bool, ptr: nat): nat
    requires ptr + NODESIZE <= |mem|
  {
    if !leaf then 0
    else if U16(mem, ptr + 4) % 2 == F_BIGDATA then PGNO_SIZE
    else U16(mem, ptr) + 65536 * U16(mem, ptr + 2)
  }

  function BlockSize(mem: Bytes, leaf: bool, ptr: nat): (r: nat)
    requires ptr + NODESIZE <= |mem|
    ensures r >= NODESIZE
  {
    Even(NODESIZE + KeySize(mem, ptr) + DataSize(mem, leaf, ptr))
  }

  datatype Node = Node(lo: nat, hi: nat, flags: nat, key: Bytes, data: Bytes)

  function NodeAt(mem: Bytes, leaf: bool, ptr: nat): Node
    requires ptr + NODESIZE <= |mem| && ptr + BlockSize(mem, leaf, ptr) <= |mem|
  {
    var k := ptr + NODESIZE + KeySize(mem, ptr);
    Node(U16(mem, ptr), U16(mem, ptr + 2), U16(mem, ptr + 4),
         mem[ptr + NODESIZE..k], mem[k..k + DataSize(mem, leaf, ptr)])
  }

  // The same bytes elsewhere are the same node.
  lemma SameBlock(a: Bytes, p: nat, b: Bytes, q: nat, leaf: bool)
    requires p + NODESIZE <= |a| && p + BlockSize(a, leaf, p) <= |a|
    requires q + BlockSize(a, leaf, p) <= |b|
    requires forall k :: 0 <= k < BlockSize(a, leaf, p) ==> Shifted(a, p, b, q, k)
    ensures BlockSize(b, leaf, q) == BlockSize(a, leaf, p)
    ensures NodeAt(b, leaf, q) == NodeAt(a, leaf, p)
  {
    assert forall k :: 0 <= k < NODESIZE ==> Shifted(a, p, b, q, k);
    SameHeader(a, p, b, q, leaf);
    var ks, ds := KeySize(a, p), DataSize(a, leaf, p);
    SameSlice(a, p, b, q, NODESIZE, NODESIZE + ks);
    SameSlice(a, p, b, q, NODESIZE + ks, NODESIZE + ks + ds);
  }

  ghost predicate Shifted(a: Bytes, p: nat, b: Bytes, q: nat, k: nat) {
    p + k < |a| && q + k < |b| && b[q + k] == a[p + k]
  }

  lemma SameHeader(a: Bytes, p: nat, b: Bytes, q: nat, leaf: bool)
    requires p + NODESIZE <= |a| && q + NODESIZE <= |b|
    requires forall k :: 0 <= k < NODESIZE ==> Shifted(a, p, b, q, k)
    ensures U16(b, q) == U16(a, p) && U16(b, q + 2) == U16(a, p + 2) && U16(b, q + 4) == U16(a, p + 4)
    ensures KeySize(b, q) == KeySize(a, p) && DataSize(b, leaf, q) == DataSize(a, leaf, p)
  {
    assert Shifted(a, p, b, q, 0) && Shifted(a, p, b, q, 1) && Shifted(a, p, b, q, 2) && Shifted(a, p, b, q, 3);
    assert Shifted(a, p, b, q, 4) && Shifted(a, p, b, q, 5) && Shifted(a, p, b, q, 6) && Shifted(a, p, b, q, 7);
  }

  lemma SameSlice(a: Bytes, p: nat, b: Bytes, q: nat, from: nat, to: nat)
    requires from <= to && p + to <= |a| && q + to <= |b|
    requires forall k :: from <= k < to ==> Shifted(a, p, b, q, k)
    ensures b[q + from..q + to] == a[p + from..p + to]
  {
    var x, y := b[q + from..q + to], a[p + from..p + to];
    forall k | 0 <= k < to - from
      ensures x[k] == y[k]
    {
      assert Shifted(a, p, b, q, from + k);
    }
  }

  // ---------------------------------------------------------------- pages

  datatype Page = Page(leaf: bool, ptrs: seq<nat>, upper: nat, mem: Bytes)

  ghost predicate BlockIn(p: Page, i: nat)
    requires i < |p.ptrs|
  {
    && p.ptrs[i] % 2 == 0 && p.upper <= p.ptrs[i] && p.ptrs[i] + NODESIZE <= |p.mem|
    && p.ptrs[i] + BlockSize(p.mem, p.leaf, p.ptrs[i]) <= |p.mem|
  }

  ghost predicate Shape(p: Page) {
    && PAGEHDRSZ + 2 * |p.ptrs| <= p.upper <= |p.mem|
    && p.upper % 2 == 0 && |p.mem| % 2 == 0
    && forall i :: 0 <= i < |p.ptrs| ==> BlockIn(p, i)
  }

  ghost function End(p: Page, i: nat): (r: nat)
    requires Shape(p) && i < |p.ptrs|
    ensures r <= |p.mem| && p.ptrs[i] + NODESIZE <= r
  {
    assert BlockIn(p, i);
    p.ptrs[i] + BlockSize(p.mem, p.leaf, p.ptrs[i])
  }

  ghost predicate Inside(p: Page, i: nat, at: nat)
    requires Shape(p)
  {
    i < |p.ptrs| && p.ptrs[i] <= at < End(p, i)
  }

  // No two nodes share a byte.
  ghost predicate Apart(p: Page)
    requires Shape(p)
  {
    forall i, j :: 0 <= i < |p.ptrs| && 0 <= j < |p.ptrs| && i != j ==>
      End(p, i) <= p.ptrs[j] || End(p, j) <= p.ptrs[i]
  }

  // Every byte of the used part belongs to a node.
  ghost predicate Covered(p: Page)
    requires Shape(p)
  {
    forall at: nat :: p.upper <= at < |p.mem| ==> Used(p, at)
  }

  ghost predicate Used(p: Page, at: nat)
    requires Shape(p)
  {
    exists i: nat :: Inside(p, i, at)
  }

  ghost predicate Valid(p: Page) {
    Shape(p) && Apart(p) && Covered(p)
  }

  ghost function Nodes(p: Page): (r: seq<Node>)
    requires Shape(p)
    ensures |r| == |p.ptrs|
  {
    seq(|p.ptrs|, i requires 0 <= i < |p.ptrs| => assert BlockIn(p, i); NodeAt(p.mem, p.leaf, p.ptrs[i]))
  }

  // Node `i` of `p` stands, byte for byte, as node `j` of `q`.
  ghost predicate Moved(p: Page, i: nat, q: Page, j: nat)
    requires Shape(p)
  {
    && i < |p.ptrs| && j < |q.ptrs| && p.leaf == q.leaf
    && q.ptrs[j] + (End(p, i) - p.ptrs[i]) <= |q.mem|
    && forall k :: 0 <= k < End(p, i) - p.ptrs[i] ==> Shifted(p.mem, p.ptrs[i], q.mem, q.ptrs[j], k)
  }

  lemma MovedNode(p: Page, i: nat, q: Page, j: nat)
    requires Shape(p) && Moved(p, i, q, j)
    ensures q.ptrs[j] + NODESIZE <= |q.mem|
    ensures BlockSize(q.mem, q.leaf, q.ptrs[j]) == End(p, i) - p.ptrs[i]
    ensures NodeAt(q.mem, q.leaf, q.ptrs[j]) == Nodes(p)[i]
  {
    assert BlockIn(p, i);
    SameBlock(p.mem, p.ptrs[i], q.mem, q.ptrs[j], p.leaf);
  }

  // A node that starts below another one ends at or below its start.
  lemma Below(p: Page, i: nat, j: nat)
    requires Shape(p) && Apart(p) && i < |p.ptrs| && j < |p.ptrs| && p.ptrs[i] < p.ptrs[j]
    ensures End(p, i) <= p.ptrs[j]
  {
  }

  // ---------------------------------------------------------------- adding

  // `q` is `p` with a block of `size` bytes added below, its offset inserted at `at`.
  ghost predicate Added(p: Page, q: Page, at: nat, size: nat)
    requires Shape(p)
  {
    && at <= |p.ptrs| && size % 2 == 0 && PAGEHDRSZ + 2 * |p.ptrs| + 2 + size <= p.upper
    && q.leaf == p.leaf && |q.mem| == |p.mem| && q.upper == p.upper - size
    && q.ptrs == p.ptrs[..at] + [q.upper] + p.ptrs[at..]
    && (forall b :: p.upper <= b < |p.mem| ==> q.mem[b] == p.mem[b])
    && NODESIZE <= size && BlockSize(q.mem, q.leaf, q.upper) == size
  }

  function After(i: nat, at: nat): nat {
    if i < at then i else i + 1
  }

  lemma AddedMoves(p: Page, q: Page, at: nat, size: nat, i: nat)
    requires Shape(p) && Added(p, q, at, size) && i < |p.ptrs|
    ensures q.ptrs[After(i, at)] == p.ptrs[i] && Moved(p, i, q, After(i, at))
  {
    assert BlockIn(p, i);
  }

  lemma AddedShape(p: Page, q: Page, at: nat, size: nat)
    requires Shape(p) && Added(p, q, at, size)
    ensures Shape(q)
    ensures forall i :: 0 <= i < |p.ptrs| ==> End(q, After(i, at)) == End(p, i)
    ensures End(q, at) == p.upper && q.ptrs[at] == q.upper
  {
    hide BlockSize;
    forall j: nat | j < |q.ptrs|
      ensures BlockIn(q, j)
    {
      if j != at {
        var i := if j < at then j else j - 1;
        AddedMoves(p, q, at, size, i);
        MovedNode(p, i, q, j);
        assert BlockIn(p, i);
      }
    }
    forall i: nat | i < |p.ptrs|
      ensures End(q, After(i, at)) == End(p, i)
    {
      AddedMoves(p, q, at, size, i);
      MovedNode(p, i, q, After(i, at));
    }
  }

  lemma AddedNodes(p: Page, q: Page, at: nat, size: nat)
    requires Shape(p) && Shape(q) && Added(p, q, at, size)
    ensures BlockIn(q, at)
    ensures Nodes(q) == Nodes(p)[..at] + [NodeAt(q.mem, q.leaf, q.upper)] + Nodes(p)[at..]
  {
    hide BlockSize, NodeAt;
    assert BlockIn(q, at);
    forall j: nat | j < |q.ptrs|
      ensures Nodes(q)[j] == (Nodes(p)[..at] + [NodeAt(q.mem, q.leaf, q.upper)] + Nodes(p)[at..])[j]
    {
      if j != at {
        var i := if j < at then j else j - 1;
        AddedMoves(p, q, at, size, i);
        MovedNode(p, i, q, j);
      }
    }
  }

  lemma AddedValid(p: Page, q: Page, at: nat, size: nat)
    requires Valid(p) && Added(p, q, at, size)
    ensures Valid(q)
  {
    hide BlockSize, BlockIn;
    AddedShape(p, q, at, size);
    assert Apart(q) by {
      forall j: nat, l: nat | j < |q.ptrs| && l < |q.ptrs| && j != l
        ensures End(q, j) <= q.ptrs[l] || End(q, l) <= q.ptrs[j]
      {
        if j == at {
          AddedApart(p, q, at, size, l);
        } else if l == at {
          AddedApart(p, q, at, size, j);
        } else {
          AddedSame(p, q, at, size, j);
          AddedSame(p, q, at, size, l);
        }
      }
    }
    forall b: nat | q.upper <= b < |q.mem|
      ensures Used(q, b)
    {
      if b < p.upper {
        assert Inside(q, at, b);
      } else {
        assert Used(p, b);
        var i: nat :| Inside(p, i, b);
        AddedMoves(p, q, at, size, i);
        assert Inside(q, After(i, at), b);
      }
    }
  }

  lemma AddedSame(p: Page, q: Page, at: nat, size: nat, j: nat)
    requires Shape(p) && Shape(q) && Added(p, q, at, size) && j < |q.ptrs| && j != at
    ensures var i := if j < at then j else j - 1; q.ptrs[j] == p.ptrs[i] && End(q, j) == End(p, i)
  {
    hide BlockSize, BlockIn;
    var i := if j < at then j else j - 1;
    AddedMoves(p, q, at, size, i);
    MovedNode(p, i, q, j);
  }

  lemma AddedApart(p: Page, q: Page, at: nat, size: nat, l: nat)
    requires Shape(p) && Shape(q) && Added(p, q, at, size) && l < |q.ptrs| && l != at
    ensures End(q, at) <= q.ptrs[l]
  {
    AddedSame(p, q, at, size, l);
    assert BlockIn(p, if l < at then l else l - 1);
  }

  // Deleting what was added gives the nodes back.
  lemma DeleteUndoesAdd(a: seq<Node>, b: seq<Node>, at: nat, n: Node, exact: bool)
    requires NodeInserted(a, b, at, n, exact)
    ensures b[..at] + b[at + 1..] == a
  {
    assert b[..at] == a[..at];
    assert b[at + 1..] == a[at..];
  }

  // ---------------------------------------------------------------- sliding

  // The index a node has after node `k` was dropped, or kept.
  function Idx(i: nat, k: nat, drop: bool): nat {
    if drop && i > k then i - 1 else i
  }

  // The nodes below node `k` moved by `d` bytes; the nodes above it stayed.
  ghost predicate Slid(p: Page, q: Page, k: nat, d: int, drop: bool)
    requires Shape(p)
  {
    && k < |p.ptrs| && d % 2 == 0 && p.ptrs[k] + d <= End(p, k)
    && q.leaf == p.leaf && |q.mem| == |p.mem| && q.upper == p.upper + d
    && |q.ptrs| == |p.ptrs| - (if drop then 1 else 0) && PAGEHDRSZ + 2 * |q.ptrs| <= q.upper
    && (forall i: nat :: i < |p.ptrs| && i != k ==> SlidPtr(p, q, k, d, drop, i))
    && (forall b :: p.upper <= b < p.ptrs[k] ==> SlidByte(p, q, d, b))
    && (forall b :: End(p, k) <= b < |p.mem| ==> q.mem[b] == p.mem[b])
  }

  ghost predicate SlidPtr(p: Page, q: Page, k: nat, d: int, drop: bool, i: nat) {
    && i < |p.ptrs| && k < |p.ptrs| && Idx(i, k, drop) < |q.ptrs|
    && q.ptrs[Idx(i, k, drop)] == p.ptrs[i] + (if p.ptrs[i] < p.ptrs[k] then d else 0)
  }

  ghost predicate SlidByte(p: Page, q: Page, d: int, b: int) {
    0 <= b < |p.mem| && 0 <= b + d < |q.mem| && q.mem[b + d] == p.mem[b]
  }

  lemma SlidMoves(p: Page, q: Page, k: nat, d: int, drop: bool, i: nat)
    requires Shape(p) && Apart(p) && Slid(p, q, k, d, drop) && i < |p.ptrs| && i != k
    ensures Idx(i, k, drop) < |q.ptrs|
    ensures q.ptrs[Idx(i, k, drop)] == p.ptrs[i] + (if p.ptrs[i] < p.ptrs[k] then d else 0)
    ensures p.ptrs[i] < p.ptrs[k] ==> End(p, i) <= p.ptrs[k]
    ensures p.ptrs[i] >= p.ptrs[k] ==> End(p, k) <= p.ptrs[i]
    ensures Moved(p, i, q, Idx(i, k, drop))
  {
    hide BlockSize;
    var j := Idx(i, k, drop);
    assert SlidPtr(p, q, k, d, drop, i);
    assert BlockIn(p, i) && BlockIn(p, k);
    forall n: nat | n < End(p, i) - p.ptrs[i]
      ensures Shifted(p.mem, p.ptrs[i], q.mem, q.ptrs[j], n)
    {
      if p.ptrs[i] < p.ptrs[k] {
        assert SlidByte(p, q, d, p.ptrs[i] + n);
      }
    }
    SlidRoom(p, q, k, d, drop, i);
  }

  lemma SlidRoom(p: Page, q: Page, k: nat, d: int, drop: bool, i: nat)
    requires Shape(p) && Apart(p) && Slid(p, q, k, d, drop) && i < |p.ptrs| && i != k
    ensures p.ptrs[i] < p.ptrs[k] ==> End(p, i) + d <= |p.mem|
  {
    hide BlockSize, BlockIn;
    if p.ptrs[i] < p.ptrs[k] {
      Below(p, i, k);
    }
  }

  // Where each other node ends up.
  lemma SlidNode(p: Page, q: Page, k: nat, d: int, drop: bool, i: nat)
    requires Shape(p) && Apart(p) && Slid(p, q, k, d, drop) && i < |p.ptrs| && i != k
    ensures Idx(i, k, drop) < |q.ptrs| && BlockIn(q, Idx(i, k, drop))
    ensures NodeAt(q.mem, q.leaf, q.ptrs[Idx(i, k, drop)]) == Nodes(p)[i]
    ensures BlockSize(q.mem, q.leaf, q.ptrs[Idx(i, k, drop)]) == End(p, i) - p.ptrs[i]
  {
    hide BlockSize, NodeAt;
    SlidMoves(p, q, k, d, drop, i);
    MovedNode(p, i, q, Idx(i, k, drop));
    assert BlockIn(p, i) && BlockIn(p, k);
  }

  lemma SlidShape(p: Page, q: Page, k: nat, d: int, drop: bool)
    requires Shape(p) && Apart(p) && Slid(p, q, k, d, drop)
    requires !drop ==> BlockIn(q, k)
    ensures Shape(q)
  {
    hide BlockSize, NodeAt;
    assert BlockIn(p, k);
    forall j: nat | j < |q.ptrs|
      ensures BlockIn(q, j)
    {
      var i := if drop && j >= k then j + 1 else j;
      if i != k {
        SlidNode(p, q, k, d, drop, i);
      }
    }
  }

  // The node `i` of `q`, as node of `p`.
  lemma SlidEnds(p: Page, q: Page, k: nat, d: int, drop: bool, i: nat)
    requires Shape(p) && Apart(p) && Shape(q) && Slid(p, q, k, d, drop) && i < |p.ptrs| && i != k
    ensures
      var j, shift := Idx(i, k, drop), if p.ptrs[i] < p.ptrs[k] then d else 0;
      j < |q.ptrs| && q.ptrs[j] == p.ptrs[i] + shift && End(q, j) == End(p, i) + shift
      && (if p.ptrs[i] < p.ptrs[k] then End(p, i) <= p.ptrs[k] else End(p, k) <= p.ptrs[i])
  {
    hide BlockSize, NodeAt, BlockIn;
    SlidMoves(p, q, k, d, drop, i);
    SlidNode(p, q, k, d, drop, i);
  }

  // Nodes of `q` other than `k` keep apart and cover what they covered.
  lemma SlidApart(p: Page, q: Page, k: nat, d: int, drop: bool, j: nat, l: nat)
    requires Shape(p) && Apart(p) && Shape(q) && Slid(p, q, k, d, drop)
    requires j < |q.ptrs| && l < |q.ptrs| && j != l && (!drop ==> j != k && l != k)
    ensures End(q, j) <= q.ptrs[l] || End(q, l) <= q.ptrs[j]
  {
    hide BlockSize, BlockIn;
    var i := if drop && j >= k then j + 1 else j;
    var m := if drop && l >= k then l + 1 else l;
    SlidEnds(p, q, k, d, drop, i);
    SlidEnds(p, q, k, d, drop, m);
  }

  lemma SlidUsed(p: Page, q: Page, k: nat, d: int, drop: bool, b: nat)
    requires Valid(p) && Shape(q) && Slid(p, q, k, d, drop)
    requires q.upper <= b < |q.mem| && (b < p.ptrs[k] + d || End(p, k) <= b)
    ensures Used(q, b)
  {
    hide BlockSize;
    assert BlockIn(p, k);
    var a := if b < p.ptrs[k] + d then b - d else b;
    assert Used(p, a);
    var i: nat :| Inside(p, i, a);
    if i != k {
      SlidEnds(p, q, k, d, drop, i);
      assert Inside(q, Idx(i, k, drop), b);
    }
  }

  // ---------------------------------------------------------------- deleting

  lemma DeletedValid(p: Page, q: Page, k: nat)
    requires Valid(p) && k < |p.ptrs| && Slid(p, q, k, End(p, k) - p.ptrs[k], true)
    ensures Valid(q)
    ensures Nodes(q) == Nodes(p)[..k] + Nodes(p)[k + 1..]
  {
    hide BlockSize, NodeAt, BlockIn, Slid;
    var d := End(p, k) - p.ptrs[k];
    SlidShape(p, q, k, d, true);
    assert Apart(q) by {
      forall j: nat, l: nat | j < |q.ptrs| && l < |q.ptrs| && j != l
        ensures End(q, j) <= q.ptrs[l] || End(q, l) <= q.ptrs[j]
      {
        SlidApart(p, q, k, d, true, j, l);
      }
    }
    SlidLength(p, q, k, d, true);
    forall b: nat | q.upper <= b < |q.mem|
      ensures Used(q, b)
    {
      SlidUsed(p, q, k, d, true, b);
    }
    forall j: nat | j < |q.ptrs|
      ensures Nodes(q)[j] == (Nodes(p)[..k] + Nodes(p)[k + 1..])[j]
    {
      var i := if j >= k then j + 1 else j;
      SlidNode(p, q, k, d, true, i);
    }
  }

  lemma SlidLength(p: Page, q: Page, k: nat, d: int, drop: bool)
    requires Shape(p) && Slid(p, q, k, d, drop)
    ensures |q.ptrs| == |p.ptrs| - (if drop then 1 else 0) && |q.mem| == |p.mem|
  {
  }

  // ---------------------------------------------------------------- a new key

  // On a branch page: node `k`, at its new place, has the new key and all else as before.
  ghost predicate Rekeyed(p: Page, q: Page, k: nat, key: Bytes)
    requires Shape(p) && k < |p.ptrs|
  {
    && !p.leaf && k < |q.ptrs| && |key| < 65536
    && BlockIn(q, k)
    && q.ptrs[k] + BlockSize(q.mem, q.leaf, q.ptrs[k]) == End(p, k)
    && NodeAt(q.mem, q.leaf, q.ptrs[k]) == Nodes(p)[k].(key := key)
  }

  lemma RekeyedValid(p: Page, q: Page, k: nat, d: int, key: Bytes)
    requires Valid(p) && k < |p.ptrs| && Slid(p, q, k, d, false) && Rekeyed(p, q, k, key)
    requires q.ptrs[k] == p.ptrs[k] + d
    ensures Valid(q)
    ensures Nodes(q) == Nodes(p)[k := Nodes(p)[k].(key := key)]
  {
    hide BlockSize, NodeAt, BlockIn, Slid;
    SlidLength(p, q, k, d, false);
    SlidShape(p, q, k, d, false);
    assert End(q, k) == End(p, k);
    assert Apart(q) by {
      forall j: nat, l: nat | j < |q.ptrs| && l < |q.ptrs| && j != l
        ensures End(q, j) <= q.ptrs[l] || End(q, l) <= q.ptrs[j]
      {
        if j == k {
          SlidEnds(p, q, k, d, false, l);
        } else if l == k {
          SlidEnds(p, q, k, d, false, j);
        } else {
          SlidApart(p, q, k, d, false, j, l);
        }
      }
    }
    forall b: nat | q.upper <= b < |q.mem|
      ensures Used(q, b)
    {
      if b < p.ptrs[k] + d || End(p, k) <= b {
        SlidUsed(p, q, k, d, false, b);
      } else {
        assert Inside(q, k, b);
      }
    }
    forall j: nat | j < |q.ptrs|
      ensures Nodes(q)[j] == Nodes(p)[k := Nodes(p)[k].(key := key)][j]
    {
      if j != k {
        SlidNode(p, q, k, d, false, j);
      }
    }
  }

  // ---------------------------------------------------------------- the page in memory

  // What a new node holds: the data size or the page number in its header words.
  function LeafNode(key: Bytes, data: Bytes, dsize: nat, flags: nat): Node {
    Node(dsize % 65536, dsize / 65536 % 65536, flags % 65536, key, data)
  }

  function BranchNode(key: Bytes, pgno: nat): Node {
    Node(pgno % 65536, pgno / 65536 % 65536, pgno / 0x1_0000_0000 % 65536, key, [])
  }

  function NodePgno(n: Node): nat {
    n.lo + 65536 * n.hi + 0x1_0000_0000 * n.flags
  }

  // Page numbers of 48 bits survive being split over the header words.
  lemma PgnoRoundTrip(key: Bytes, pgno: nat)
    requires pgno < 0x1_0000_0000_0000
    ensures NodePgno(BranchNode(key, pgno)) == pgno
  {
    var high := pgno / 0x1_0000_0000;
    assert high < 65536;
    assert pgno / 65536 / 65536 == high;
  }

  datatype AddResult = AddSuccess | PageFull | NoPages

  datatype UpdateResult = UpdateDone | NeedSplit(pgno: nat)

  ghost predicate Spills(ksize: nat, dsize: nat, flags: nat, nodemax: nat) {
    flags % 2 != F_BIGDATA && NODESIZE + ksize + dsize > nodemax
  }

  // The space a new node takes.
  ghost function NodeRoom(leaf: bool, ksize: nat, dsize: nat, flags: nat, nodemax: nat): nat {
    if !leaf then Even(NODESIZE + ksize)
    else if flags % 2 == F_BIGDATA || Spills(ksize, dsize, flags, nodemax) then Even(NODESIZE + ksize + PGNO_SIZE)
    else Even(NODESIZE + ksize + dsize)
  }

  // Whether the bytes of the data are written by the call.
  ghost predicate Copied(leaf: bool, ksize: nat, dsize: nat, flags: nat, reserve: bool, nodemax: nat) {
    !leaf || !reserve || flags % 2 == F_BIGDATA || Spills(ksize, dsize, flags, nodemax)
  }

  ghost function NewNode(leaf: bool, key: Bytes, data: Bytes, dsize: nat, pgno: nat, flags: nat, nodemax: nat, overflow: int): Node {
    if !leaf then BranchNode(key, pgno)
    else if Spills(|key|, dsize, flags, nodemax) && overflow >= 0
      then LeafNode(key, LE(overflow, PGNO_SIZE), dsize, flags + 1)
    else LeafNode(key, data, dsize, flags)
  }

  method Write16(mem: array<Byte>, at: nat, v: nat)
    requires at + 2 <= mem.Length && v < 65536
    modifies mem
    ensures U16(mem[..], at) == v
    ensures forall b :: 0 <= b < mem.Length && !(at <= b < at + 2) ==> mem[b] == old(mem[b])
  {
    mem[at], mem[at + 1] := v % 256, v / 256;
  }

  // `b` is `a` with `n` bytes copied from `from` to `to`.
  ghost predicate Moving(a: Bytes, b: Bytes, to: nat, from: nat, n: nat) {
    && |b| == |a| && to + n <= |a| && from + n <= |a|
    && (forall k :: 0 <= k < n ==> Shifted(a, from, b, to, k))
    && (forall i :: 0 <= i < |a| && !(to <= i < to + n) ==> b[i] == a[i])
  }

  // memmove: the ranges may overlap.
  method MoveBytes(mem: array<Byte>, to: nat, from: nat, n: nat)
    requires to + n <= mem.Length && from + n <= mem.Length
    modifies mem
    ensures Moving(old(mem[..]), mem[..], to, from, n)
  {
    forall k | 0 <= k < n {
      mem[to + k] := mem[from + k];
    }
  }

  // The offsets after node `k` of `size` bytes is gone.
  function Up(x: nat, ptr: nat, size: nat): nat {
    if x < ptr then x + size else x
  }

  ghost predicate Squeezed(a: seq<nat>, b: seq<nat>, k: nat, size: nat) {
    && k < |a| && |b| == |a| - 1
    && (forall m :: 0 <= m < k ==> b[m] == Up(a[m], a[k], size))
    && (forall m :: k <= m < |b| ==> b[m] == Up(a[m + 1], a[k], size))
  }

  // The offsets after node `k` has grown by `delta` bytes.
  function Down(x: nat, ptr: nat, delta: int): int {
    if x <= ptr then x - delta else x
  }

  ghost predicate Lowered(a: seq<nat>, b: seq<nat>, k: nat, delta: int) {
    k < |a| && |b| == |a| && forall m :: 0 <= m < |a| ==> b[m] == Down(a[m], a[k], delta)
  }

  // The nodes `a` with `n` added at `at`; its data counts only when `exact`.
  ghost predicate NodeInserted(a: seq<Node>, b: seq<Node>, at: nat, n: Node, exact: bool) {
    && at <= |a| && |b| == |a| + 1
    && b == a[..at] + [b[at]] + a[at..]
    && b[at] == n.(data := b[at].data) && (exact ==> b[at] == n)
  }

  // `b` is `a` with node `n` written at `at`, its data only when `copyData`.
  ghost predicate NodeWritten(a: Bytes, b: Bytes, at: nat, n: Node, copyData: bool) {
    && |b| == |a| && at + NODESIZE + |n.key| + |n.data| <= |a|
    && U16(b, at) == n.lo && U16(b, at + 2) == n.hi && U16(b, at + 4) == n.flags
    && KeySize(b, at) == |n.key|
    && b[at + NODESIZE..at + NODESIZE + |n.key|] == n.key
    && (copyData ==> b[at + NODESIZE + |n.key|..at + NODESIZE + |n.key| + |n.data|] == n.data)
    && forall i :: 0 <= i < |a| && !(at <= i < at + NODESIZE + |n.key| + |n.data|) ==> b[i] == a[i]
  }

  // The header words, the key and the data of a node at `at`.
  method WriteNode(mem: array<Byte>, at: nat, n: Node, copyData: bool)
    requires at + NODESIZE + |n.key| + |n.data| <= mem.Length
    requires n.lo < 65536 && n.hi < 65536 && n.flags < 65536 && |n.key| < 65536
    modifies mem
    ensures NodeWritten(old(mem[..]), mem[..], at, n, copyData)
  {
    Write16(mem, at + 6, |n.key|);
    Write16(mem, at + 4, n.flags);
    Write16(mem, at, n.lo);
    Write16(mem, at + 2, n.hi);
    WriteBytes(mem, at + NODESIZE, n.key);
    if copyData {
      ghost var keyPart := mem[at + NODESIZE..at + NODESIZE + |n.key|];
      WriteBytes(mem, at + NODESIZE + |n.key|, n.data);
      assert mem[at + NODESIZE..at + NODESIZE + |n.key|] == keyPart;
    }
  }

  class PageBuffer {
    const leaf: bool
    const mem: array<Byte>
    const ptrs: array<nat>
    var lower: nat
    var upper: nat

    ghost predicate Bounds()
      reads this
    {
      PAGEHDRSZ <= lower <= upper <= mem.Length && lower % 2 == 0 && mem.Length <= PAGEHDRSZ + 2 * ptrs.Length
    }

    function NumKeys(): (r: nat)
      requires Bounds()
      reads this
      ensures r <= ptrs.Length && lower == PAGEHDRSZ + 2 * r
    {
      (lower - PAGEHDRSZ) / 2
    }

    function View(): Page
      requires Bounds()
      reads this, mem, ptrs
    {
      Page(leaf, ptrs[..NumKeys()], upper, mem[..])
    }

    ghost predicate Ok()
      reads this, mem, ptrs
    {
      Bounds() && Valid(View())
    }

    // A buffer that holds the page.
    constructor Load(p: Page)
      requires Valid(p)
      ensures Ok() && View() == p && fresh(mem) && fresh(ptrs)
    {
      leaf := p.leaf;
      mem := new Byte[|p.mem|](i requires 0 <= i < |p.mem| => p.mem[i]);
      ptrs := new nat[|p.mem| / 2](i => if 0 <= i < |p.ptrs| then p.ptrs[i] else 0);
      lower := PAGEHDRSZ + 2 * |p.ptrs|;
      upper := p.upper;
      new;
      assert mem[..] == p.mem && ptrs[..NumKeys()] == p.ptrs;
    }

    // Make room in the offset array, take space from the top, write the node.
    method Insert(indx: nat, size: nat, n: Node, copyData: bool)
      requires Ok() && indx <= NumKeys() && lower + 2 + size <= upper
      requires size == Even(NODESIZE + |n.key| + |n.data|)
      requires n.lo < 65536 && n.hi < 65536 && n.flags < 65536 && |n.key| < 65536
      requires |n.data| == if !leaf then 0 else if n.flags % 2 == F_BIGDATA then PGNO_SIZE else n.lo + 65536 * n.hi
      modifies this, mem, ptrs
      ensures Ok() && lower == old(lower) + 2 && upper == old(upper) - size
      ensures NodeInserted(Nodes(old(View())), Nodes(View()), indx, n, copyData)
      ensures forall b :: 0 <= b < upper ==> mem[b] == old(mem[b])
    {
      hide Valid, Nodes, NodeInserted, NodeWritten;
      ghost var before := View();
      ShiftUp(indx, before);
      var ofs := upper - size;
      ptrs[indx] := ofs;
      upper := ofs;
      lower := lower + 2;
      assert ptrs[..NumKeys()] == before.ptrs[..indx] + [ofs] + before.ptrs[indx..];
      WriteNode(mem, ofs, n, copyData);
      Inserted(before, View(), indx, size, n, copyData);
      assert forall b :: 0 <= b < upper ==> View().mem[b] == before.mem[b];
    }

    // The offsets from `indx` on, one slot up, from the last.
    method ShiftUp(indx: nat, ghost before: Page)
      requires Bounds() && indx <= NumKeys() < ptrs.Length && before == View()
      modifies ptrs
      ensures ptrs[..indx] == before.ptrs[..indx] && ptrs[indx + 1..NumKeys() + 1] == before.ptrs[indx..]
    {
      var i := NumKeys();
      while i > indx
        invariant indx <= i <= NumKeys()
        invariant forall m :: 0 <= m < i ==> ptrs[m] == before.ptrs[m]
        invariant forall m :: i < m <= NumKeys() ==> ptrs[m] == before.ptrs[m - 1]
      {
        ptrs[i] := ptrs[i - 1];
        i := i - 1;
      }
    }

    // Add a node.  On a leaf, data too large for a node goes to an overflow page: `overflow` is
    // its number, or negative when none can be had.  Data already on an overflow page comes with
    // F_BIGDATA and the bytes of the page number.  With `reserve` the caller fills the data later.
    method NodeAdd(indx: nat, key: Bytes, data: Bytes, dsize: nat, pgno: nat, flags: nat, reserve: bool,
                   nodemax: nat, overflow: int)
      returns (rc: AddResult)
      requires Ok() && indx <= NumKeys() && |key| < 65536 && dsize < 0x1_0000_0000
      requires leaf ==> |data| == if flags % 2 == F_BIGDATA then PGNO_SIZE else dsize
      modifies this, mem, ptrs
      ensures Ok()
      ensures !rc.AddSuccess? ==> lower == old(lower) && upper == old(upper)
      ensures !rc.AddSuccess? ==> mem[..] == old(mem[..]) && ptrs[..] == old(ptrs[..])
      ensures rc.PageFull? <==> NodeRoom(leaf, |key|, dsize, flags, nodemax) + 2 > old(upper) - old(lower)
      ensures rc.NoPages? <==> !rc.PageFull? && leaf && Spills(|key|, dsize, flags, nodemax) && overflow < 0
      ensures rc.AddSuccess? ==> lower == old(lower) + 2
      ensures rc.AddSuccess? ==> upper == old(upper) - NodeRoom(leaf, |key|, dsize, flags, nodemax)
      ensures rc.AddSuccess? ==>
        NodeInserted(Nodes(old(View())), Nodes(View()), indx,
                     NewNode(leaf, key, data, dsize, pgno, flags, nodemax, overflow),
                     Copied(leaf, |key|, dsize, flags, reserve, nodemax))
    {
      hide Valid, Nodes, NodeInserted;
      var room := upper - lower - 2;
      var size := NODESIZE + |key|;
      var n: Node;
      var copy := true;
      if leaf {
        if flags % 2 == F_BIGDATA {
          size := size + PGNO_SIZE;
          n := LeafNode(key, data, dsize, flags);
        } else if size + dsize > nodemax {
          size := Even(size + PGNO_SIZE);
          if size > room {
            return PageFull;
          }
          if overflow < 0 {
            return NoPages;
          }
          n := LeafNode(key, LE(overflow, PGNO_SIZE), dsize, flags + 1);
        } else {
          size := size + dsize;
          n := LeafNode(key, data, dsize, flags);
          copy := !reserve;
        }
      } else {
        n := BranchNode(key, pgno);
      }
      size := Even(size);
      if size > room {
        return PageFull;
      }
      FlagParity(flags);
      SizeWords(dsize);
      Insert(indx, size, n, copy);
      rc := AddSuccess;
    }

    // A 16-bit word of the page.
    function Word(at: nat): (r: nat)
      requires at + 2 <= mem.Length
      reads mem
      ensures r == U16(mem[..], at)
    {
      var low: int, high: int := mem[at], mem[at + 1];
      low + 256 * high
    }

    // The space of the node at `ptr`.
    method NodeSpace(ptr: nat) returns (size: nat)
      requires ptr + NODESIZE <= mem.Length
      ensures size == BlockSize(mem[..], leaf, ptr)
    {
      size := NODESIZE + Word(ptr + 6);
      if leaf {
        if Word(ptr + 4) % 2 == F_BIGDATA {
          size := size + PGNO_SIZE;
        } else {
          size := size + Word(ptr) + 65536 * Word(ptr + 2);
        }
      }
      size := Even(size);
    }

    // Drop one offset; those below the node move with the bytes.
    method Squeeze(indx: nat, ptr: nat, size: nat, ghost before: seq<nat>)
      requires Bounds() && indx < NumKeys() && before == ptrs[..NumKeys()] && ptr == ptrs[indx]
      modifies ptrs
      ensures Squeezed(before, ptrs[..NumKeys() - 1], indx, size)
    {
      hide Up;
      var n := NumKeys();
      var i, j := 0, 0;
      while i < n
        invariant 0 <= i <= n && j == if i <= indx then i else i - 1
        invariant forall m :: 0 <= m < j && m < indx ==> ptrs[m] == Up(before[m], ptr, size)
        invariant forall m :: indx <= m < j ==> ptrs[m] == Up(before[m + 1], ptr, size)
        invariant forall m :: i <= m < n ==> ptrs[m] == before[m]
      {
        if i != indx {
          var x := ptrs[i];
          ptrs[j] := x;
          UpIs(x, ptr, size);
          if x < ptr {
            ptrs[j] := ptrs[j] + size;
          }
          j := j + 1;
        }
        i := i + 1;
      }
    }

    // Delete a node: close the gap it leaves by moving the nodes below it up.
    method NodeDel(indx: nat)
      requires Ok() && indx < NumKeys()
      modifies this, mem, ptrs
      ensures Ok() && lower == old(lower) - 2
      ensures Nodes(View()) == Nodes(old(View()))[..indx] + Nodes(old(View()))[indx + 1..]
      ensures upper == old(upper) + (End(old(View()), indx) - old(ptrs[indx]))
    {
      hide Apart, Covered, Nodes, Shape, End, BlockSize, Slid, Moving, Squeezed;
      ghost var before := View();
      NodeBounds(before, indx);
      var ptr := ptrs[indx];
      var size := NodeSpace(ptr);
      Squeeze(indx, ptr, size, before.ptrs);
      MoveBytes(mem, upper + size, upper, ptr - upper);
      lower := lower - 2;
      upper := upper + size;
      DelSlides(before, View(), indx, size);
      DeletedValid(before, View(), indx);
    }

    // Replace the key of a branch node, moving it and the nodes below when its size changes; when
    // it does not fit, the node is deleted and the caller has to split the page.
    method UpdateKey(indx: nat, key: Bytes) returns (rc: UpdateResult)
      requires Ok() && !leaf && indx < NumKeys() && |key| < 65536
      modifies this, mem, ptrs
      ensures Ok()
      ensures rc.UpdateDone? ==> Nodes(View()) == Nodes(old(View()))[indx := Nodes(old(View()))[indx].(key := key)]
      ensures rc.NeedSplit? ==> Nodes(View()) == Nodes(old(View()))[..indx] + Nodes(old(View()))[indx + 1..]
      ensures rc.NeedSplit? ==> rc.pgno == NodePgno(Nodes(old(View()))[indx])
      ensures rc.NeedSplit? <==>
        Even(|key|) - Even(|Nodes(old(View()))[indx].key|) > old(upper) - old(lower)
    {
      hide Apart, Covered, Nodes, Shape, End, BlockSize, Slid;
      ghost var before := View();
      NodeBounds(before, indx);
      BranchNodeAt(before, indx);
      var ptr := ptrs[indx];
      var ksize: int, oksize: int := Even(|key|), Even(Word(ptr + 6));
      var delta := ksize - oksize;
      if delta > 0 && upper - lower < delta {
        var pgno := Word(ptr) + 65536 * Word(ptr + 2) + 0x1_0000_0000 * Word(ptr + 4);
        NodeDel(indx);
        return NeedSplit(pgno);
      }
      Rekey(indx, ptr, key, delta);
      rc := UpdateDone;
    }

    method Rekey(indx: nat, ptr: nat, key: Bytes, delta: int)
      requires Ok() && !leaf && indx < NumKeys() && |key| < 65536 && ptr == ptrs[indx]
      requires ptr + NODESIZE <= mem.Length && delta == Even(|key|) - Even(KeySize(mem[..], ptr))
      requires upper - lower >= delta
      modifies this, mem, ptrs
      ensures Ok()
      ensures Nodes(View()) == Nodes(old(View()))[indx := Nodes(old(View()))[indx].(key := key)]
    {
      hide Apart, Covered, Nodes, Shape, End, BlockSize, Slid, KeyMoved, KeySize, Rekeyed;
      ghost var before := View();
      NodeBounds(before, indx);
      Shift(indx, ptr, delta, before);
      ghost var moved := View();
      KeyPlace(before, moved, indx, delta);
      WriteKey(ptrs[indx], key);
      KeySlides(before, moved, View(), indx, delta, key);
      RekeyedValid(before, View(), indx, -delta, key);
    }

    // Move the header of the node, and all nodes below it, down by `delta` bytes.
    method Shift(indx: nat, ptr: nat, delta: int, ghost before: Page)
      requires Bounds() && before == View() && Shape(before) && indx < NumKeys() && ptr == ptrs[indx]
      requires upper - delta >= lower && ptr + NODESIZE - delta <= mem.Length && ptr + NODESIZE <= mem.Length
      modifies this, mem, ptrs
      ensures Bounds() && lower == old(lower) && upper == old(upper) - delta
      ensures KeyMoved(before, View(), indx, delta)
    {
      hide Shape, Lowered;
      AllAbove(before);
      if delta != 0 {
        SlidePtrs(indx, ptr, delta, before.ptrs);
        MoveBytes(mem, upper - delta, upper, ptr - upper + NODESIZE);
        upper := upper - delta;
      } else {
        NotLowered(before.ptrs, indx);
      }
    }

    method SlidePtrs(indx: nat, ptr: nat, delta: int, ghost before: seq<nat>)
      requires Bounds() && before == ptrs[..NumKeys()] && indx < NumKeys() && ptr == ptrs[indx]
      requires forall m :: 0 <= m < NumKeys() ==> before[m] >= delta
      modifies ptrs
      ensures Lowered(before, ptrs[..NumKeys()], indx, delta)
    {
      var n := NumKeys();
      var i := 0;
      while i < n
        invariant 0 <= i <= n
        invariant forall m :: 0 <= m < i ==> ptrs[m] == Down(before[m], ptr, delta)
        invariant forall m :: i <= m < n ==> ptrs[m] == before[m]
      {
        if ptrs[i] <= ptr {
          ptrs[i] := ptrs[i] - delta;
        }
        i := i + 1;
      }
    }

    method WriteKey(at: nat, key: Bytes)
      requires at + NODESIZE + |key| <= mem.Length && |key| < 65536
      modifies mem
      ensures KeyWritten(old(mem[..]), mem[..], at, key)
    {
      Write16(mem, at + 6, |key|);
      WriteBytes(mem, at + NODESIZE, key);
    }
  }

  lemma FlagParity(flags: nat)
    ensures flags % 65536 % 2 == flags % 2 && (flags + 1) % 65536 % 2 == (flags + 1) % 2
  {
    Parity(flags);
    Parity(flags + 1);
  }

  lemma Parity(n: nat)
    ensures n % 65536 % 2 == n % 2
  {
    var q, r := n / 65536, n % 65536;
    assert n == 2 * (32768 * q) + r;
    EvenPart(32768 * q, r);
  }

  lemma EvenPart(m: nat, r: nat)
    ensures (2 * m + r) % 2 == r % 2
  {
  }

  lemma SizeWords(dsize: nat)
    requires dsize < 0x1_0000_0000
    ensures dsize % 65536 + 65536 * (dsize / 65536 % 65536) == dsize
  {
  }

  lemma UpIs(x: nat, ptr: nat, size: nat)
    ensures Up(x, ptr, size) == if x < ptr then x + size else x
  {
  }

  lemma NodeBounds(p: Page, k: nat)
    requires Shape(p) && k < |p.ptrs|
    ensures p.upper <= p.ptrs[k] && p.ptrs[k] + NODESIZE <= |p.mem| && PAGEHDRSZ + 2 * |p.ptrs| <= p.upper
    ensures End(p, k) == p.ptrs[k] + BlockSize(p.mem, p.leaf, p.ptrs[k]) <= |p.mem|
    ensures BlockSize(p.mem, p.leaf, p.ptrs[k]) >= NODESIZE
    ensures !p.leaf ==> End(p, k) == p.ptrs[k] + NODESIZE + Even(KeySize(p.mem, p.ptrs[k]))
  {
    assert BlockIn(p, k);
  }

  lemma AllAbove(p: Page)
    requires Shape(p)
    ensures forall i :: 0 <= i < |p.ptrs| ==> p.upper <= p.ptrs[i]
  {
    forall i | 0 <= i < |p.ptrs|
      ensures p.upper <= p.ptrs[i]
    {
      assert BlockIn(p, i);
    }
  }

  lemma BranchNodeAt(p: Page, k: nat)
    requires Shape(p) && k < |p.ptrs| && !p.leaf && p.ptrs[k] + NODESIZE <= |p.mem|
    ensures var n := Nodes(p)[k];
      && n.lo == U16(p.mem, p.ptrs[k]) && n.hi == U16(p.mem, p.ptrs[k] + 2) && n.flags == U16(p.mem, p.ptrs[k] + 4)
      && |n.key| == KeySize(p.mem, p.ptrs[k])
  {
    assert BlockIn(p, k);
  }

  lemma NotLowered(a: seq<nat>, k: nat)
    requires k < |a|
    ensures Lowered(a, a, k, 0)
  {
  }

  lemma Inserted(p: Page, q: Page, indx: nat, size: nat, n: Node, copyData: bool)
    requires Valid(p) && indx <= |p.ptrs| && PAGEHDRSZ + 2 * |p.ptrs| + 2 + size <= p.upper
    requires size == Even(NODESIZE + |n.key| + |n.data|)
    requires |n.data| == if !p.leaf then 0 else if n.flags % 2 == F_BIGDATA then PGNO_SIZE else n.lo + 65536 * n.hi
    requires q.leaf == p.leaf && q.upper == p.upper - size
    requires q.ptrs == p.ptrs[..indx] + [q.upper] + p.ptrs[indx..]
    requires NodeWritten(p.mem, q.mem, q.upper, n, copyData)
    ensures Valid(q)
    ensures NodeInserted(Nodes(p), Nodes(q), indx, n, copyData)
    ensures |q.mem| == |p.mem| && forall b :: 0 <= b < q.upper ==> q.mem[b] == p.mem[b]
  {
    hide Apart, Covered, Shape, Nodes;
    assert Added(p, q, indx, size);
    AddedValid(p, q, indx, size);
    AddedNodes(p, q, indx, size);
  }

  lemma DelSlides(p: Page, q: Page, k: nat, size: nat)
    requires Shape(p) && k < |p.ptrs| && size == End(p, k) - p.ptrs[k]
    requires p.upper <= p.ptrs[k] && p.ptrs[k] + size <= |p.mem|
    requires q.leaf == p.leaf && q.upper == p.upper + size
    requires Squeezed(p.ptrs, q.ptrs, k, size)
    requires Moving(p.mem, q.mem, p.upper + size, p.upper, p.ptrs[k] - p.upper)
    ensures Slid(p, q, k, size, true)
  {
    hide BlockSize, Shape;
    NodeBounds(p, k);
    forall i: nat | i < |p.ptrs| && i != k
      ensures SlidPtr(p, q, k, size, true, i)
    {
      if i > k {
        assert q.ptrs[i - 1] == Up(p.ptrs[i - 1 + 1], p.ptrs[k], size);
      }
    }
    forall b | p.upper <= b < p.ptrs[k]
      ensures SlidByte(p, q, size, b)
    {
      assert Shifted(p.mem, p.upper, q.mem, p.upper + size, b - p.upper);
    }
    assert size % 2 == 0 by { BlockEven(p.mem, p.leaf, p.ptrs[k]); }
  }

  lemma BlockEven(mem: Bytes, leaf: bool, ptr: nat)
    requires ptr + NODESIZE <= |mem|
    ensures BlockSize(mem, leaf, ptr) % 2 == 0
  {
  }

  // `m` is `p` after the bytes and offsets moved.
  ghost predicate KeyMoved(p: Page, m: Page, k: nat, delta: int) {
    && k < |p.ptrs| && 0 <= p.upper - delta && p.upper <= p.ptrs[k]
    && m.leaf == p.leaf && m.upper == p.upper - delta
    && Lowered(p.ptrs, m.ptrs, k, delta)
    && Moving(p.mem, m.mem, p.upper - delta, p.upper, p.ptrs[k] - p.upper + NODESIZE)
  }

  // `b` is `a` with the key size and the key of the node at `at` replaced.
  ghost predicate KeyWritten(a: Bytes, b: Bytes, at: nat, key: Bytes) {
    && |b| == |a| && at + NODESIZE + |key| <= |a|
    && KeySize(b, at) == |key| && b[at + NODESIZE..at + NODESIZE + |key|] == key
    && forall i :: 0 <= i < |a| && !(at + 6 <= i < at + NODESIZE + |key|) ==> b[i] == a[i]
  }

  lemma KeySlides(p: Page, m: Page, q: Page, k: nat, delta: int, key: Bytes)
    requires Shape(p) && Apart(p) && k < |p.ptrs| && !p.leaf && |key| < 65536
    requires p.ptrs[k] + NODESIZE <= |p.mem| && delta == Even(|key|) - Even(KeySize(p.mem, p.ptrs[k]))
    requires PAGEHDRSZ + 2 * |p.ptrs| <= p.upper - delta
    requires KeyMoved(p, m, k, delta)
    requires q == m.(mem := q.mem) && k < |m.ptrs| && KeyWritten(m.mem, q.mem, m.ptrs[k], key)
    ensures Slid(p, q, k, -delta, false) && q.ptrs[k] == p.ptrs[k] - delta
    ensures Rekeyed(p, q, k, key)
  {
    hide Nodes, Shape, Apart, Moving, Slid, Rekeyed, KeyWritten, KeyMoved, Even, KeySize;
    KeyPlace(p, m, k, delta);
    KeySlid(p, m, q, k, delta, key);
    KeyNode(p, m, q, k, delta, key);
  }

  lemma KeyPlace(p: Page, m: Page, k: nat, delta: int)
    requires KeyMoved(p, m, k, delta)
    ensures k < |m.ptrs| && m.ptrs[k] == p.ptrs[k] - delta
  {
    assert m.ptrs[k] == Down(p.ptrs[k], p.ptrs[k], delta);
  }

  lemma KeySlid(p: Page, m: Page, q: Page, k: nat, delta: int, key: Bytes)
    requires Shape(p) && Apart(p) && k < |p.ptrs| && !p.leaf
    requires p.ptrs[k] + NODESIZE <= |p.mem| && delta == Even(|key|) - Even(KeySize(p.mem, p.ptrs[k]))
    requires PAGEHDRSZ + 2 * |p.ptrs| <= p.upper - delta
    requires KeyMoved(p, m, k, delta)
    requires q == m.(mem := q.mem) && k < |m.ptrs| && m.ptrs[k] == p.ptrs[k] - delta
    requires KeyWritten(m.mem, q.mem, m.ptrs[k], key)
    ensures Slid(p, q, k, -delta, false)
  {
    hide Shape, Apart, BlockSize, End, KeyMoved, KeyWritten, SlidPtr, SlidByte, KeySize;
    NodeBounds(p, k);
    var d := -delta;
    forall i: nat | i < |p.ptrs| && i != k
      ensures SlidPtr(p, q, k, d, false, i)
    {
      KeySlidPtr(p, m, q, k, delta, i);
    }
    forall b | p.upper <= b < p.ptrs[k]
      ensures SlidByte(p, q, d, b)
    {
      KeySlidByte(p, m, q, k, delta, key, b);
    }
    KeySlidRest(p, m, q, k, delta, key);
  }

  lemma KeySlidPtr(p: Page, m: Page, q: Page, k: nat, delta: int, i: nat)
    requires Shape(p) && Apart(p) && i < |p.ptrs| && i != k && KeyMoved(p, m, k, delta) && q.ptrs == m.ptrs
    ensures SlidPtr(p, q, k, -delta, false, i)
  {
    hide Shape, Apart, Moving;
    DifferentPtrs(p, i, k);
    assert m.ptrs[i] == Down(p.ptrs[i], p.ptrs[k], delta);
  }

  lemma KeySlidByte(p: Page, m: Page, q: Page, k: nat, delta: int, key: Bytes, b: nat)
    requires KeyMoved(p, m, k, delta) && k < |m.ptrs| && m.ptrs[k] == p.ptrs[k] - delta
    requires KeyWritten(m.mem, q.mem, m.ptrs[k], key) && p.upper <= b < p.ptrs[k]
    ensures SlidByte(p, q, -delta, b)
  {
    hide Lowered, KeySize;
    assert Shifted(p.mem, p.upper, m.mem, p.upper - delta, b - p.upper);
  }

  lemma KeySlidRest(p: Page, m: Page, q: Page, k: nat, delta: int, key: Bytes)
    requires p.ptrs != [] && KeyMoved(p, m, k, delta) && k < |m.ptrs| && m.ptrs[k] == p.ptrs[k] - delta
    requires KeyWritten(m.mem, q.mem, m.ptrs[k], key) && p.ptrs[k] + NODESIZE <= |p.mem|
    requires delta == Even(|key|) - Even(KeySize(p.mem, p.ptrs[k]))
    ensures |q.mem| == |p.mem| && |m.ptrs| == |p.ptrs| && m.upper == p.upper - delta && m.leaf == p.leaf
    ensures forall b :: p.ptrs[k] + NODESIZE + Even(KeySize(p.mem, p.ptrs[k])) <= b < |p.mem| ==> q.mem[b] == p.mem[b]
  {
    hide KeySize;
  }

  lemma DifferentPtrs(p: Page, i: nat, k: nat)
    requires Shape(p) && Apart(p) && i < |p.ptrs| && k < |p.ptrs| && i != k
    ensures p.ptrs[i] != p.ptrs[k]
  {
    assert End(p, i) <= p.ptrs[k] || End(p, k) <= p.ptrs[i];
  }

  lemma KeyNode(p: Page, m: Page, q: Page, k: nat, delta: int, key: Bytes)
    requires Shape(p) && k < |p.ptrs| && !p.leaf && |key| < 65536
    requires p.ptrs[k] + NODESIZE <= |p.mem| && delta == Even(|key|) - Even(KeySize(p.mem, p.ptrs[k]))
    requires PAGEHDRSZ + 2 * |p.ptrs| <= p.upper - delta
    requires KeyMoved(p, m, k, delta)
    requires q == m.(mem := q.mem) && k < |m.ptrs| && m.ptrs[k] == p.ptrs[k] - delta
    requires KeyWritten(m.mem, q.mem, m.ptrs[k], key)
    ensures Rekeyed(p, q, k, key)
  {
    hide Shape, Moving, Lowered, KeyMoved, U16;
    NodeBounds(p, k);
    var at := m.ptrs[k];
    KeyHeader(p, m, q, k, delta, key);
    assert BlockSize(q.mem, false, at) == NODESIZE + Even(|key|);
    BranchNodeIs(p, k);
    assert q.mem[at + NODESIZE + |key|..at + NODESIZE + |key|] == [];
    assert NodeAt(q.mem, false, at) == Node(U16(p.mem, p.ptrs[k]), U16(p.mem, p.ptrs[k] + 2), U16(p.mem, p.ptrs[k] + 4), key, []);
    KeyParts(p, m, q, k, delta);
  }

  lemma KeyParts(p: Page, m: Page, q: Page, k: nat, delta: int)
    requires KeyMoved(p, m, k, delta) && q.ptrs == m.ptrs && q.upper == m.upper && q.leaf == m.leaf
    ensures q.leaf == p.leaf && |q.ptrs| == |p.ptrs| && q.upper == p.upper - delta
    ensures q.upper <= q.ptrs[k] == p.ptrs[k] - delta
  {
    KeyPlace(p, m, k, delta);
  }

  lemma KeyHeader(p: Page, m: Page, q: Page, k: nat, delta: int, key: Bytes)
    requires k < |p.ptrs| && k < |m.ptrs| && p.ptrs[k] + NODESIZE <= |p.mem|
    requires KeyMoved(p, m, k, delta) && m.ptrs[k] == p.ptrs[k] - delta
    requires q == m.(mem := q.mem) && KeyWritten(m.mem, q.mem, m.ptrs[k], key)
    ensures |q.mem| == |p.mem| && m.upper <= m.ptrs[k]
    ensures U16(q.mem, m.ptrs[k]) == U16(p.mem, p.ptrs[k])
    ensures U16(q.mem, m.ptrs[k] + 2) == U16(p.mem, p.ptrs[k] + 2)
    ensures U16(q.mem, m.ptrs[k] + 4) == U16(p.mem, p.ptrs[k] + 4)
  {
    var d := p.ptrs[k] - p.upper;
    assert Shifted(p.mem, p.upper, m.mem, p.upper - delta, d) && Shifted(p.mem, p.upper, m.mem, p.upper - delta, d + 1);
    assert Shifted(p.mem, p.upper, m.mem, p.upper - delta, d + 2) && Shifted(p.mem, p.upper, m.mem, p.upper - delta, d + 3);
    assert Shifted(p.mem, p.upper, m.mem, p.upper - delta, d + 4) && Shifted(p.mem, p.upper, m.mem, p.upper - delta, d + 5);
  }

  lemma BranchNodeIs(p: Page, k: nat)
    requires Shape(p) && k < |p.ptrs| && !p.leaf && p.ptrs[k] + NODESIZE <= |p.mem|
    ensures p.ptrs[k] % 2 == 0 && p.upper % 2 == 0
    ensures var n := Nodes(p)[k];
      && n == Node(U16(p.mem, p.ptrs[k]), U16(p.mem, p.ptrs[k] + 2), U16(p.mem, p.ptrs[k] + 4), n.key, [])
  {
    assert BlockIn(p, k);
  }
}
