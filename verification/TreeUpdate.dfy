/**
  * Putting a new key into a B-tree and deleting one: the descent finds its leaf and place, the node
  * is added to the bytes of that leaf or taken out, and of all keys of the tree only that one comes
  * or goes and every other keeps its node.  Any number of keys may be put and deleted, until a leaf
  * has no room: the tree then stands for the map the operations leave.
  */
module TreeUpdate {
  import opened ByteSeq
  import opened SlottedPage
  import opened PageSearch

  // ---------------------------------------------------------------- pages used

  lemma UsesIs(store: map<nat, Page>, pgno: nat, h: nat, x: nat)
    ensures Uses(store, pgno, h, x) <==> x == pgno || (h > 0 && exists m: nat :: ChildUses(store, pgno, h, m, x))
  {
    hide Shape, ChildPage;
    if h > 0 && pgno in store && Shape(store[pgno]) && x != pgno && Uses(store, pgno, h, x) {
      var m: nat :| m < |store[pgno].ptrs| && Uses(store, ChildPage(store[pgno], m), h - 1, x);
      assert ChildUses(store, pgno, h, m, x);
    }
  }

  lemma ChildUsesIs(store: map<nat, Page>, pgno: nat, h: nat, m: nat, x: nat)
    requires h > 0
    ensures ChildUses(store, pgno, h, m, x) <==>
      && pgno in store && Shape(store[pgno]) && m < |store[pgno].ptrs|
      && Uses(store, ChildPage(store[pgno], m), h - 1, x)
  {
  }

  lemma SeparateIs(store: map<nat, Page>, pgno: nat, h: nat)
    ensures Separate(store, pgno, h) <==>
      (h > 0 && pgno in store && Shape(store[pgno]) ==>
        && (forall m: nat :: m < |store[pgno].ptrs| ==> Separate(store, ChildPage(store[pgno], m), h - 1))
        && (forall m: nat :: !ChildUses(store, pgno, h, m, pgno))
        && (forall m: nat, n: nat, x: nat :: ChildUses(store, pgno, h, m, x) && ChildUses(store, pgno, h, n, x) ==> m == n))
  {
    hide Shape, ChildPage, ChildUses;
  }

  // The same pages are used when the children use the same.
  lemma SameUses(store: map<nat, Page>, other: map<nat, Page>, pgno: nat, h: nat, x: nat)
    requires h > 0 && pgno in store && pgno in other && store[pgno] == other[pgno] && Shape(store[pgno])
    requires forall m: nat :: m < |store[pgno].ptrs| ==>
               Uses(other, ChildPage(store[pgno], m), h - 1, x) == Uses(store, ChildPage(store[pgno], m), h - 1, x)
    ensures Uses(other, pgno, h, x) == Uses(store, pgno, h, x)
    ensures forall m: nat :: ChildUses(other, pgno, h, m, x) == ChildUses(store, pgno, h, m, x)
  {
    hide Shape, Uses, ChildPage, ChildUses;
    forall m: nat
      ensures ChildUses(other, pgno, h, m, x) == ChildUses(store, pgno, h, m, x)
    {
      ChildUsesIs(store, pgno, h, m, x);
      ChildUsesIs(other, pgno, h, m, x);
    }
    UsesIs(store, pgno, h, x);
    UsesIs(other, pgno, h, x);
  }

  // A tree that does not use the page uses what it did.
  lemma {:induction false} FrameUses(store: map<nat, Page>, pgno: nat, h: nat, leaf: nat, q: Page, x: nat)
    requires !Uses(store, pgno, h, leaf)
    ensures Uses(store[leaf := q], pgno, h, x) == Uses(store, pgno, h, x)
    decreases h
  {
    hide Shape, ChildPage;
    if h > 0 && pgno in store && Shape(store[pgno]) {
      var p := store[pgno];
      forall m: nat | m < |p.ptrs|
        ensures Uses(store[leaf := q], ChildPage(p, m), h - 1, x) == Uses(store, ChildPage(p, m), h - 1, x)
      {
        assert !ChildUses(store, pgno, h, m, leaf);
        FrameUses(store, ChildPage(p, m), h - 1, leaf, q, x);
      }
      SameUses(store, store[leaf := q], pgno, h, x);
    }
  }

  // Children that use the same pages and share none.
  lemma SameSeparate(store: map<nat, Page>, other: map<nat, Page>, pgno: nat, h: nat)
    requires h > 0 && pgno in store && pgno in other && store[pgno] == other[pgno] && Shape(store[pgno])
    requires Separate(store, pgno, h)
    requires forall m: nat :: m < |store[pgno].ptrs| ==> Separate(other, ChildPage(store[pgno], m), h - 1)
    requires forall m: nat, x: nat :: ChildUses(other, pgno, h, m, x) == ChildUses(store, pgno, h, m, x)
    ensures Separate(other, pgno, h)
  {
    hide Shape, ChildPage, ChildUses, Separate;
    SeparateIs(store, pgno, h);
    SeparateIs(other, pgno, h);
  }

  lemma {:induction false} FrameSeparate(store: map<nat, Page>, pgno: nat, h: nat, leaf: nat, q: Page)
    requires Separate(store, pgno, h) && !Uses(store, pgno, h, leaf)
    ensures Separate(store[leaf := q], pgno, h)
    decreases h
  {
    hide Shape, ChildPage, ChildUses, Uses, Separate;
    UsesIs(store, pgno, h, leaf);
    SeparateIs(store, pgno, h);
    SeparateIs(store[leaf := q], pgno, h);
    if h > 0 && pgno in store && Shape(store[pgno]) {
      var p := store[pgno];
      forall m: nat | m < |p.ptrs|
        ensures Separate(store[leaf := q], ChildPage(p, m), h - 1)
      {
        ChildUsesIs(store, pgno, h, m, leaf);
        FrameSeparate(store, ChildPage(p, m), h - 1, leaf, q);
      }
      forall m: nat, x: nat
        ensures ChildUses(store[leaf := q], pgno, h, m, x) == ChildUses(store, pgno, h, m, x)
      {
        ChildUsesIs(store, pgno, h, m, leaf);
        ChildUsesIs(store, pgno, h, m, x);
        ChildUsesIs(store[leaf := q], pgno, h, m, x);
        if m < |p.ptrs| {
          FrameUses(store, ChildPage(p, m), h - 1, leaf, q, x);
        }
      }
      SameSeparate(store, store[leaf := q], pgno, h);
    }
  }

  // Another leaf page where the descent ends: the tree uses the same pages, each once.
  lemma {:induction false} ChangedUses(store: map<nat, Page>, pgno: nat, h: nat, lo: Bound, hi: Bound, key: Bytes, leaf: nat, q: Page, x: nat)
    requires Tree(store, pgno, h, lo, hi) && Separate(store, pgno, h)
    requires Leads(store, pgno, h, lo, hi, key, leaf)
    ensures Uses(store[leaf := q], pgno, h, x) == Uses(store, pgno, h, x)
    decreases h
  {
    hide NodeOk, Shape, Within, Separate, Uses, Leads, Tree, LoOf, HiOf, ChildPage;
    TreeIs(store, pgno, h, lo, hi);
    NodeShape(store[pgno], h, lo, hi);
    if h == 0 {
      UsesIs(store, pgno, h, x);
      UsesIs(store[leaf := q], pgno, h, x);
    } else {
      var p := store[pgno];
      var i := NextStep(store, pgno, h, lo, hi, key, leaf);
      forall m: nat | m < |p.ptrs|
        ensures Uses(store[leaf := q], ChildPage(p, m), h - 1, x) == Uses(store, ChildPage(p, m), h - 1, x)
      {
        if m == i {
          ChangedUses(store, ChildPage(p, i), h - 1, LoOf(p, i, lo), HiOf(p, i, hi), key, leaf, q, x);
        } else {
          FrameUses(store, ChildPage(p, m), h - 1, leaf, q, x);
        }
      }
      SameUses(store, store[leaf := q], pgno, h, x);
    }
  }

  lemma {:induction false} ChangedSeparate(store: map<nat, Page>, pgno: nat, h: nat, lo: Bound, hi: Bound, key: Bytes, leaf: nat, q: Page)
    requires Tree(store, pgno, h, lo, hi) && Separate(store, pgno, h)
    requires Leads(store, pgno, h, lo, hi, key, leaf)
    ensures Separate(store[leaf := q], pgno, h)
    decreases h
  {
    hide NodeOk, Shape, Within, Separate, Uses, ChildUses, Leads, Tree, LoOf, HiOf, ChildPage;
    TreeIs(store, pgno, h, lo, hi);
    NodeShape(store[pgno], h, lo, hi);
    SeparateIs(store, pgno, h);
    SeparateIs(store[leaf := q], pgno, h);
    if h > 0 {
      var p := store[pgno];
      var i := NextStep(store, pgno, h, lo, hi, key, leaf);
      forall m: nat | m < |p.ptrs|
        ensures Separate(store[leaf := q], ChildPage(p, m), h - 1)
      {
        if m == i {
          ChangedSeparate(store, ChildPage(p, i), h - 1, LoOf(p, i, lo), HiOf(p, i, hi), key, leaf, q);
        } else {
          FrameSeparate(store, ChildPage(p, m), h - 1, leaf, q);
        }
      }
      forall m: nat, x: nat
        ensures ChildUses(store[leaf := q], pgno, h, m, x) == ChildUses(store, pgno, h, m, x)
      {
        ChildUsesIs(store, pgno, h, m, x);
        ChildUsesIs(store[leaf := q], pgno, h, m, x);
        if m == i {
          ChangedUses(store, ChildPage(p, i), h - 1, LoOf(p, i, lo), HiOf(p, i, hi), key, leaf, q, x);
        } else if m < |p.ptrs| {
          FrameUses(store, ChildPage(p, m), h - 1, leaf, q, x);
        }
      }
      SameSeparate(store, store[leaf := q], pgno, h);
    }
  }

  // ---------------------------------------------------------------- the tree as a map

  ghost predicate HasNode(p: Page, n: Node)
    requires Shape(p)
  {
    exists m: nat :: m < |p.ptrs| && Nodes(p)[m] == n
  }

  // A node on a leaf of the tree.
  ghost predicate NodeIn(store: map<nat, Page>, pgno: nat, h: nat, n: Node)
    decreases h
  {
    && pgno in store && Shape(store[pgno])
    && if h == 0 then HasNode(store[pgno], n)
       else exists m: nat :: m < |store[pgno].ptrs| && NodeIn(store, ChildPage(store[pgno], m), h - 1, n)
  }

  lemma NodeInIs(store: map<nat, Page>, pgno: nat, h: nat, n: Node)
    ensures NodeIn(store, pgno, h, n) <==>
      && pgno in store && Shape(store[pgno])
      && if h == 0 then HasNode(store[pgno], n)
         else exists m: nat :: m < |store[pgno].ptrs| && NodeIn(store, ChildPage(store[pgno], m), h - 1, n)
  {
  }

  lemma NodeHasKey(p: Page, n: Node)
    requires Shape(p) && HasNode(p, n)
    ensures HasKey(p, n.key)
  {
    hide Shape, Nodes;
    KeysOf(p);
    var m: nat :| m < |p.ptrs| && Nodes(p)[m] == n;
    assert KeyAt(p, m) == n.key;
  }

  lemma KeyHasNode(p: Page, key: Bytes) returns (n: Node)
    requires Shape(p) && HasKey(p, key)
    ensures HasNode(p, n) && n.key == key
  {
    hide Shape, Nodes;
    KeysOf(p);
    var m: nat :| m < |p.ptrs| && KeyAt(p, m) == key;
    n := Nodes(p)[m];
  }

  lemma {:induction false} KeyOfNode(store: map<nat, Page>, pgno: nat, h: nat, n: Node)
    requires NodeIn(store, pgno, h, n)
    ensures InTree(store, pgno, h, n.key)
    decreases h
  {
    hide Shape, HasNode, HasKey, ChildPage, InTree;
    InTreeIs(store, pgno, h, n.key);
    if h == 0 {
      NodeHasKey(store[pgno], n);
    } else {
      var p := store[pgno];
      var m: nat :| m < |p.ptrs| && NodeIn(store, ChildPage(p, m), h - 1, n);
      KeyOfNode(store, ChildPage(p, m), h - 1, n);
    }
  }

  lemma {:induction false} NodeOfKey(store: map<nat, Page>, pgno: nat, h: nat, key: Bytes) returns (n: Node)
    requires InTree(store, pgno, h, key)
    ensures NodeIn(store, pgno, h, n) && n.key == key
    decreases h
  {
    hide Shape, HasNode, HasKey, ChildPage;
    if h == 0 {
      n := KeyHasNode(store[pgno], key);
    } else {
      var p := store[pgno];
      var m: nat :| m < |p.ptrs| && InTree(store, ChildPage(p, m), h - 1, key);
      n := NodeOfKey(store, ChildPage(p, m), h - 1, key);
    }
  }

  // A leaf in order has one node for a key.
  lemma OneOnLeaf(p: Page, a: Node, b: Node)
    requires Shape(p) && InOrder(p) && p.leaf && HasNode(p, a) && HasNode(p, b) && a.key == b.key
    ensures a == b
  {
    hide Shape, Nodes, InOrder;
    KeysOf(p);
    var i: nat :| i < |p.ptrs| && Nodes(p)[i] == a;
    var j: nat :| j < |p.ptrs| && Nodes(p)[j] == b;
    KeyPlace(p, i, j);
  }

  lemma KeyPlace(p: Page, i: nat, j: nat)
    requires Shape(p) && InOrder(p) && p.leaf && i < |p.ptrs| && j < |p.ptrs| && KeyAt(p, i) == KeyAt(p, j)
    ensures i == j
  {
    hide Shape, PageSearch.Below;
    OneWay(KeyAt(p, i), KeyAt(p, j));
  }

  // So has a tree.
  lemma {:induction false} OneNode(store: map<nat, Page>, pgno: nat, h: nat, lo: Bound, hi: Bound, a: Node, b: Node)
    requires Tree(store, pgno, h, lo, hi) && NodeIn(store, pgno, h, a) && NodeIn(store, pgno, h, b) && a.key == b.key
    ensures a == b
    decreases h
  {
    hide NodeOk, Shape, InOrder, HasNode, Within, Tree, LoOf, HiOf, ChildPage, InTree;
    TreeIs(store, pgno, h, lo, hi);
    var p := store[pgno];
    NodeShape(p, h, lo, hi);
    if h == 0 {
      OneOnLeaf(p, a, b);
    } else {
      var i: nat :| i < |p.ptrs| && NodeIn(store, ChildPage(p, i), h - 1, a);
      var j: nat :| j < |p.ptrs| && NodeIn(store, ChildPage(p, j), h - 1, b);
      KeyOfNode(store, ChildPage(p, i), h - 1, a);
      KeyOfNode(store, ChildPage(p, j), h - 1, b);
      KeysWithin(store, ChildPage(p, i), h - 1, LoOf(p, i, lo), HiOf(p, i, hi), a.key);
      KeysWithin(store, ChildPage(p, j), h - 1, LoOf(p, j, lo), HiOf(p, j, hi), a.key);
      OneChild(p, lo, hi, a.key, i, j);
      OneNode(store, ChildPage(p, i), h - 1, LoOf(p, i, lo), HiOf(p, i, hi), a, b);
    }
  }

  lemma {:induction false} FrameNode(store: map<nat, Page>, pgno: nat, h: nat, leaf: nat, q: Page, n: Node)
    requires !Uses(store, pgno, h, leaf)
    ensures NodeIn(store[leaf := q], pgno, h, n) <==> NodeIn(store, pgno, h, n)
    decreases h
  {
    hide Shape, HasNode, ChildPage;
    if h > 0 && pgno in store && Shape(store[pgno]) {
      var p := store[pgno];
      forall m: nat | m < |p.ptrs|
        ensures NodeIn(store[leaf := q], ChildPage(p, m), h - 1, n) <==> NodeIn(store, ChildPage(p, m), h - 1, n)
      {
        assert !ChildUses(store, pgno, h, m, leaf);
        FrameNode(store, ChildPage(p, m), h - 1, leaf, q, n);
      }
    }
  }

  // A leaf replaced by one that differs in the node of one key: so does the tree.
  lemma {:induction false} ChangedNode(store: map<nat, Page>, pgno: nat, h: nat, lo: Bound, hi: Bound, key: Bytes, leaf: nat, q: Page, n: Node)
    requires Tree(store, pgno, h, lo, hi) && Separate(store, pgno, h)
    requires Leads(store, pgno, h, lo, hi, key, leaf) && leaf in store && Shape(store[leaf]) && Shape(q)
    requires n.key != key ==> (HasNode(q, n) <==> HasNode(store[leaf], n))
    ensures NodeIn(store[leaf := q], pgno, h, n) <==> if n.key == key then HasNode(q, n) else NodeIn(store, pgno, h, n)
    decreases h
  {
    hide NodeOk, Shape, HasNode, Within, Separate, Uses, Leads, Tree, InTree, LoOf, HiOf, ChildPage, NodeIn;
    TreeIs(store, pgno, h, lo, hi);
    NodeInIs(store, pgno, h, n);
    NodeInIs(store[leaf := q], pgno, h, n);
    var p := store[pgno];
    NodeShape(p, h, lo, hi);
    if h == 0 {
      LeadsHere(store, pgno, lo, hi, key, leaf);
    } else {
      var i := NextStep(store, pgno, h, lo, hi, key, leaf);
      ChangedNode(store, ChildPage(p, i), h - 1, LoOf(p, i, lo), HiOf(p, i, hi), key, leaf, q, n);
      forall m: nat | m < |p.ptrs| && m != i
        ensures NodeIn(store[leaf := q], ChildPage(p, m), h - 1, n) <==> NodeIn(store, ChildPage(p, m), h - 1, n)
        ensures n.key == key ==> !NodeIn(store, ChildPage(p, m), h - 1, n)
      {
        FrameNode(store, ChildPage(p, m), h - 1, leaf, q, n);
        OnlyThere(store, p, h, lo, hi, key, i, m);
        if n.key == key && NodeIn(store, ChildPage(p, m), h - 1, n) {
          KeyOfNode(store, ChildPage(p, m), h - 1, n);
        }
      }
    }
  }

  // The leaf with a node added keeps the others.
  lemma AddedNode(p: Page, q: Page, at: nat, n: Node, exact: bool, x: Node)
    requires Shape(p) && Shape(q) && NodeInserted(Nodes(p), Nodes(q), at, n, exact)
    ensures HasNode(q, Nodes(q)[at])
    ensures x.key != n.key ==> (HasNode(q, x) <==> HasNode(p, x))
  {
    hide Shape, Nodes;
    var a, b := Nodes(p), Nodes(q);
    if m: nat :| m < |q.ptrs| && Nodes(q)[m] == x {
      assert m < at ==> a[m] == x;
      assert m > at ==> a[m - 1] == x;
    }
    if m: nat :| m < |p.ptrs| && Nodes(p)[m] == x {
      assert m < at ==> b[m] == x;
      assert m >= at ==> b[m + 1] == x;
    }
  }

  lemma DeletedNode(p: Page, q: Page, at: nat, x: Node)
    requires Shape(p) && Shape(q) && at < |p.ptrs| && Nodes(q) == Nodes(p)[..at] + Nodes(p)[at + 1..]
    ensures x.key != KeyAt(p, at) ==> (HasNode(q, x) <==> HasNode(p, x))
  {
    hide Shape, Nodes;
    KeyOnPage(p, at);
    var a, b := Nodes(p), Nodes(q);
    if m: nat :| m < |b| && b[m] == x {
      assert a[if m < at then m else m + 1] == x;
    }
    if m: nat :| m < |a| && a[m] == x && m != at {
      assert b[if m < at then m else m - 1] == x;
    }
  }

  lemma KeyOnPage(p: Page, at: nat)
    requires Shape(p) && at < |p.ptrs|
    ensures KeyAt(p, at) == Nodes(p)[at].key
  {
    hide Nodes;
    KeysOf(p);
  }

  // The node of a key.
  ghost function NodeFor(store: map<nat, Page>, root: nat, h: nat, key: Bytes): (n: Node)
    requires InTree(store, root, h, key)
    ensures NodeIn(store, root, h, n) && n.key == key
  {
    assert exists n: Node :: NodeIn(store, root, h, n) && n.key == key by {
      var n := NodeOfKey(store, root, h, key);
    }
    var n :| NodeIn(store, root, h, n) && n.key == key;
    n
  }

  // The map the tree stands for.
  ghost function AsMap(store: map<nat, Page>, root: nat, h: nat): imap<Bytes, Node> {
    imap key: Bytes | InTree(store, root, h, key) :: NodeFor(store, root, h, key)
  }

  lemma MapsTo(store: map<nat, Page>, root: nat, h: nat, n: Node)
    requires Tree(store, root, h, Open, Open) && NodeIn(store, root, h, n)
    ensures n.key in AsMap(store, root, h) && AsMap(store, root, h)[n.key] == n
  {
    hide Tree, NodeIn, InTree;
    KeyOfNode(store, root, h, n);
    OneNode(store, root, h, Open, Open, n, NodeFor(store, root, h, n.key));
  }

  // ---------------------------------------------------------------- putting a key

  datatype PutResult = Added | KeyExists | Refused(why: AddResult)

  // A tree of whole pages, no page used twice.
  ghost predicate TreeOk(store: map<nat, Page>, root: nat, h: nat) {
    && Tree(store, root, h, Open, Open) && Separate(store, root, h)
    && forall x :: x in store ==> Valid(store[x])
  }

  // The value of a key on a leaf: its data, or the number of an overflow page.
  datatype Entry = Entry(key: Bytes, data: Bytes, dsize: nat, flags: nat, reserve: bool, overflow: int)

  ghost predicate EntryOk(e: Entry) {
    |e.key| < 65536 && e.dsize < 0x1_0000_0000 && |e.data| == if e.flags % 2 == F_BIGDATA then PGNO_SIZE else e.dsize
  }

  // `after` is `store` with the entry in place `at` of page `leaf`.
  ghost predicate EntryAdded(store: map<nat, Page>, after: map<nat, Page>, leaf: nat, at: nat, e: Entry, nodemax: nat) {
    && leaf in store && leaf in after && after == store[leaf := after[leaf]] && Shape(store[leaf]) && Shape(after[leaf])
    && NodeInserted(Nodes(store[leaf]), Nodes(after[leaf]), at,
                    NewNode(true, e.key, e.data, e.dsize, 0, e.flags, nodemax, e.overflow),
                    Copied(true, |e.key|, e.dsize, e.flags, e.reserve, nodemax))
  }

  // What a node keeps of an entry: key, size and flags, and the data, unless the caller is to fill it
  // in; of data too large, the number of the overflow page.
  ghost predicate EntryNode(e: Entry, n: Node, nodemax: nat) {
    && n.key == e.key && n.lo + 65536 * n.hi == e.dsize
    && if Spills(|e.key|, e.dsize, e.flags, nodemax)
       then n.flags == (e.flags + 1) % 65536 && (0 <= e.overflow < 0x1_0000_0000_0000_0000 ==> FromLE(n.data) == e.overflow)
       else n.flags == e.flags % 65536 && (!e.reserve || e.flags % 2 == F_BIGDATA ==> n.data == e.data)
  }

  lemma NodeOfEntry(e: Entry, n: Node, nodemax: nat)
    requires EntryOk(e) && (Spills(|e.key|, e.dsize, e.flags, nodemax) ==> e.overflow >= 0)
    requires
      var x := NewNode(true, e.key, e.data, e.dsize, 0, e.flags, nodemax, e.overflow);
      n == x.(data := n.data) && (Copied(true, |e.key|, e.dsize, e.flags, e.reserve, nodemax) ==> n == x)
    ensures EntryNode(e, n, nodemax)
  {
    hide FromLE, LE, Pow256;
    Widths();
    if Spills(|e.key|, e.dsize, e.flags, nodemax) && e.overflow < 0x1_0000_0000_0000_0000 {
      LERoundTrip(e.overflow, PGNO_SIZE);
    }
  }

  // What one operation does to the map.
  ghost predicate Does(op: Op, before: imap<Bytes, Node>, after: imap<Bytes, Node>, nodemax: nat) {
    match op
    case Insert(e) =>
      if e.key in before then after == before
      else e.key in after && EntryNode(e, after[e.key], nodemax) && after == before[e.key := after[e.key]]
    case Remove(key) => after == imap k | k in before && k != key :: before[k]
  }

  // The node does not fit into the page.
  ghost predicate NoRoom(p: Page, e: Entry, nodemax: nat) {
    PAGEHDRSZ + 2 * |p.ptrs| + 2 + NodeRoom(true, |e.key|, e.dsize, e.flags, nodemax) > p.upper
  }

  // Or its data needs an overflow page, and there is none.
  ghost predicate NoPlace(p: Page, e: Entry, nodemax: nat) {
    NoRoom(p, e, nodemax) || (Spills(|e.key|, e.dsize, e.flags, nodemax) && e.overflow < 0)
  }

  // The leaf the key of the operation leads to has no place for its entry.
  ghost predicate Stuck(store: map<nat, Page>, root: nat, h: nat, op: Op, nodemax: nat) {
    op.Insert? && exists leaf :: leaf in store && Leads(store, root, h, Open, Open, op.e.key, leaf) && NoPlace(store[leaf], op.e, nodemax)
  }

  /** mdb_cursor_put with MDB_NOOVERWRITE, where the leaf has room. */
  method Put(store: map<nat, Page>, root: nat, h: nat, e: Entry, nodemax: nat)
    returns (rc: PutResult, after: map<nat, Page>, leaf: nat, at: nat)
    requires TreeOk(store, root, h) && EntryOk(e)
    ensures rc.KeyExists? <==> InTree(store, root, h, e.key)
    ensures !rc.Added? ==> after == store
    ensures leaf in store && Leads(store, root, h, Open, Open, e.key, leaf)
    ensures rc.Refused? <==> !InTree(store, root, h, e.key) && NoPlace(store[leaf], e, nodemax)
    ensures rc.Refused? ==> rc.why == if NoRoom(store[leaf], e, nodemax) then PageFull else NoPages
    ensures rc.Added? ==> EntryAdded(store, after, leaf, at, e, nodemax) && TreeOk(after, root, h)
    ensures rc.Added? ==> forall k: Bytes :: InTree(after, root, h, k) <==> InTree(store, root, h, k) || k == e.key
    ensures !rc.Refused? ==> Does(Insert(e), AsMap(store, root, h), AsMap(after, root, h), nodemax)
  {
    hide Tree, InTree, Shape, InOrder, Around, Leads, Separate, Nodes, NodeInserted, Valid, NodeRoom, NewNode, Copied;
    after := store;
    var exact;
    leaf, at, exact := Find(store, root, h, e.key);
    if exact {
      return KeyExists, store, leaf, at;
    }
    var page := new PageBuffer.Load(store[leaf]);
    var added := page.NodeAdd(at, e.key, e.data, e.dsize, 0, e.flags, e.reserve, nodemax, e.overflow);
    if !added.AddSuccess? {
      return Refused(added), store, leaf, at;
    }
    ghost var n := NewNode(true, e.key, e.data, e.dsize, 0, e.flags, nodemax, e.overflow);
    var q := page.View();
    NewKey(e, nodemax);
    WholeShape(q);
    AddedKey(store[leaf], q, at, n, Copied(true, |e.key|, e.dsize, e.flags, e.reserve, nodemax));
    after := store[leaf := q];
    LeafReplaced(store, root, h, e.key, leaf, q, true);
    PutInMap(store, root, h, e, leaf, q, at, nodemax);
    rc := Added;
  }

  lemma PutInMap(store: map<nat, Page>, root: nat, h: nat, e: Entry, leaf: nat, q: Page, at: nat, nodemax: nat)
    requires TreeOk(store, root, h) && TreeOk(store[leaf := q], root, h) && !InTree(store, root, h, e.key)
    requires Leads(store, root, h, Open, Open, e.key, leaf) && EntryAdded(store, store[leaf := q], leaf, at, e, nodemax)
    requires EntryOk(e) && (Spills(|e.key|, e.dsize, e.flags, nodemax) ==> e.overflow >= 0)
    ensures Does(Insert(e), AsMap(store, root, h), AsMap(store[leaf := q], root, h), nodemax)
  {
    hide Tree, InTree, Shape, Leads, Separate, Nodes, Valid, NewNode, Copied, NodeIn, HasNode, EntryNode, Spills;
    var p, after := store[leaf], store[leaf := q];
    var x := NewNode(true, e.key, e.data, e.dsize, 0, e.flags, nodemax, e.overflow);
    var exact := Copied(true, |e.key|, e.dsize, e.flags, e.reserve, nodemax);
    NewKey(e, nodemax);
    var n := Nodes(q)[at];
    forall k: Node
      ensures NodeIn(after, root, h, k) <==> if k.key == e.key then HasNode(q, k) else NodeIn(store, root, h, k)
    {
      AddedNode(p, q, at, x, exact, k);
      ChangedNode(store, root, h, Open, Open, e.key, leaf, q, k);
    }
    AddedNode(p, q, at, x, exact, n);
    MapsTo(after, root, h, n);
    OthersKept(store, after, root, h, e.key);
    NodeOfEntry(e, n, nodemax);
    assert AsMap(after, root, h) == AsMap(store, root, h)[e.key := n];
  }

  // Two trees with the same nodes but for one key.
  lemma OthersKept(store: map<nat, Page>, after: map<nat, Page>, root: nat, h: nat, key: Bytes)
    requires Tree(store, root, h, Open, Open) && Tree(after, root, h, Open, Open)
    requires forall n: Node :: n.key != key ==> (NodeIn(after, root, h, n) <==> NodeIn(store, root, h, n))
    ensures forall k: Bytes :: k != key ==> (k in AsMap(after, root, h) <==> k in AsMap(store, root, h))
    ensures forall k: Bytes :: k != key && k in AsMap(store, root, h) ==> AsMap(after, root, h)[k] == AsMap(store, root, h)[k]
  {
    hide Tree, NodeIn, InTree;
    forall k: Bytes | k != key
      ensures k in AsMap(after, root, h) <==> k in AsMap(store, root, h)
      ensures k in AsMap(store, root, h) ==> AsMap(after, root, h)[k] == AsMap(store, root, h)[k]
    {
      if k in AsMap(store, root, h) {
        MapsTo(after, root, h, NodeFor(store, root, h, k));
      } else if k in AsMap(after, root, h) {
        MapsTo(store, root, h, NodeFor(after, root, h, k));
      }
    }
  }

  // The tree with another page for the leaf that the key leads to.
  lemma LeafReplaced(store: map<nat, Page>, root: nat, h: nat, key: Bytes, leaf: nat, q: Page, present: bool)
    requires TreeOk(store, root, h) && leaf in store && Leads(store, root, h, Open, Open, key, leaf)
    requires KeyChanged(store[leaf], q, key, present) && Valid(q)
    ensures TreeOk(store[leaf := q], root, h)
    ensures forall k: Bytes :: InTree(store[leaf := q], root, h, k) <==> if k == key then present else InTree(store, root, h, k)
  {
    hide Tree, InTree, Leads, Separate, KeyChanged, Valid;
    AnyKey(key);
    ChangeInTree(store, root, h, Open, Open, key, leaf, q, present);
    ChangedSeparate(store, root, h, Open, Open, key, leaf, q);
    forall k: Bytes
      ensures InTree(store[leaf := q], root, h, k) <==> if k == key then present else InTree(store, root, h, k)
    {
      ChangedInTree(store, root, h, Open, Open, key, leaf, q, present, k);
    }
  }

  lemma NewKey(e: Entry, nodemax: nat)
    ensures NewNode(true, e.key, e.data, e.dsize, 0, e.flags, nodemax, e.overflow).key == e.key
  {
  }

  lemma WholeShape(p: Page)
    requires Valid(p)
    ensures Shape(p)
  {
  }

  lemma AnyKey(key: Bytes)
    ensures Within(key, Open, Open)
  {
  }

  /** mdb_cursor_del of the key that was searched for: mdb_node_del on its leaf. */
  method Delete(store: map<nat, Page>, root: nat, h: nat, key: Bytes)
    returns (found: bool, after: map<nat, Page>, leaf: nat, at: nat)
    requires TreeOk(store, root, h)
    ensures found <==> InTree(store, root, h, key)
    ensures !found ==> after == store
    ensures TreeOk(after, root, h)
    ensures found ==> NodeGone(store, after, leaf, at, key)
    ensures forall k: Bytes :: InTree(after, root, h, k) <==> InTree(store, root, h, k) && k != key
    ensures Does(Remove(key), AsMap(store, root, h), AsMap(after, root, h), 0)
  {
    hide Tree, InTree, Shape, InOrder, Around, Leads, Separate, Nodes, Valid, KeyChanged, End;
    after := store;
    leaf, at, found := Find(store, root, h, key);
    if !found {
      assert AsMap(store, root, h) == imap k | k in AsMap(store, root, h) && k != key :: AsMap(store, root, h)[k];
      return;
    }
    var page := new PageBuffer.Load(store[leaf]);
    page.NodeDel(at);
    var q := page.View();
    WholeShape(q);
    DeletedKey(store[leaf], q, at);
    after := store[leaf := q];
    LeafReplaced(store, root, h, key, leaf, q, false);
    GoneFromMap(store, root, h, key, leaf, q, at);
  }

  lemma GoneFromMap(store: map<nat, Page>, root: nat, h: nat, key: Bytes, leaf: nat, q: Page, at: nat)
    requires TreeOk(store, root, h) && TreeOk(store[leaf := q], root, h) && !InTree(store[leaf := q], root, h, key)
    requires Leads(store, root, h, Open, Open, key, leaf) && NodeGone(store, store[leaf := q], leaf, at, key)
    ensures Does(Remove(key), AsMap(store, root, h), AsMap(store[leaf := q], root, h), 0)
  {
    hide Tree, InTree, Shape, Leads, Separate, Nodes, Valid, NodeIn, HasNode;
    var p, after := store[leaf], store[leaf := q];
    forall n: Node | n.key != key
      ensures NodeIn(after, root, h, n) <==> NodeIn(store, root, h, n)
    {
      DeletedNode(p, q, at, n);
      ChangedNode(store, root, h, Open, Open, key, leaf, q, n);
    }
    OthersKept(store, after, root, h, key);
    assert AsMap(after, root, h) == imap k | k in AsMap(store, root, h) && k != key :: AsMap(store, root, h)[k];
  }

  // `after` is `store` without node `at` of page `leaf`, whose key is `key`.
  ghost predicate NodeGone(store: map<nat, Page>, after: map<nat, Page>, leaf: nat, at: nat, key: Bytes) {
    && leaf in store && leaf in after && after == store[leaf := after[leaf]] && Shape(store[leaf]) && Shape(after[leaf])
    && at < |store[leaf].ptrs| && KeyAt(store[leaf], at) == key
    && Nodes(after[leaf]) == Nodes(store[leaf])[..at] + Nodes(store[leaf])[at + 1..]
  }

  datatype Op = Insert(e: Entry) | Remove(key: Bytes)

  // Whether the key is there after the operations, if it was there before or not.
  ghost predicate Holds(before: bool, ops: seq<Op>, key: Bytes) {
    if ops == [] then before
    else
      match ops[|ops| - 1]
      case Insert(e) => e.key == key || Holds(before, ops[..|ops| - 1], key)
      case Remove(gone) => gone != key && Holds(before, ops[..|ops| - 1], key)
  }

  // The operations, one after the other, on a map.
  ghost predicate Leaves(before: imap<Bytes, Node>, ops: seq<Op>, after: imap<Bytes, Node>, nodemax: nat) {
    if ops == [] then after == before
    else
      var first, last := ops[..|ops| - 1], ops[|ops| - 1];
      exists mid :: Leaves(before, first, mid, nodemax) && Does(last, mid, after, nodemax)
  }

  function KeyOf(op: Op): Bytes {
    match op
    case Insert(e) => e.key
    case Remove(key) => key
  }

  lemma OtherKey(op: Op, before: imap<Bytes, Node>, after: imap<Bytes, Node>, nodemax: nat, key: Bytes)
    requires Does(op, before, after, nodemax) && KeyOf(op) != key
    ensures key in after <==> key in before
    ensures key in before ==> after[key] == before[key]
  {
    hide EntryNode;
  }

  // A key no operation names keeps its node, or stays absent.
  lemma {:induction false} Unnamed(before: imap<Bytes, Node>, ops: seq<Op>, after: imap<Bytes, Node>, nodemax: nat, key: Bytes)
    requires Leaves(before, ops, after, nodemax)
    requires forall op <- ops :: KeyOf(op) != key
    ensures key in after <==> key in before
    ensures key in before ==> after[key] == before[key]
    decreases |ops|
  {
    hide Does;
    if ops != [] {
      var n := |ops| - 1;
      var mid :| Leaves(before, ops[..n], mid, nodemax) && Does(ops[n], mid, after, nodemax);
      Unnamed(before, ops[..n], mid, nodemax, key);
      OtherKey(ops[n], mid, after, nodemax, key);
    }
  }

  // A key that was put holds that entry as long as no later operation removes it.
  lemma {:induction false} LastPut(before: imap<Bytes, Node>, ops: seq<Op>, after: imap<Bytes, Node>, nodemax: nat, i: nat)
    requires Leaves(before, ops, after, nodemax) && i < |ops| && ops[i].Insert?
    requires !Holds(ops[i].e.key in before, ops[..i], ops[i].e.key)
    requires forall j :: i < j < |ops| ==> ops[j] != Remove(ops[i].e.key)
    ensures ops[i].e.key in after && EntryNode(ops[i].e, after[ops[i].e.key], nodemax)
    decreases |ops|
  {
    hide EntryNode;
    var n := |ops| - 1;
    var mid :| Leaves(before, ops[..n], mid, nodemax) && Does(ops[n], mid, after, nodemax);
    if i == n {
      KeysLeft(before, ops[..n], mid, nodemax, ops[i].e.key);
    } else {
      assert ops[..n][..i] == ops[..i];
      LastPut(before, ops[..n], mid, nodemax, i);
    }
  }

  // The keys of that map.
  lemma {:induction false} KeysLeft(before: imap<Bytes, Node>, ops: seq<Op>, after: imap<Bytes, Node>, nodemax: nat, key: Bytes)
    requires Leaves(before, ops, after, nodemax)
    ensures key in after <==> Holds(key in before, ops, key)
    decreases |ops|
  {
    hide EntryNode;
    if ops != [] {
      var n := |ops| - 1;
      var mid :| Leaves(before, ops[..n], mid, nodemax) && Does(ops[n], mid, after, nodemax);
      KeysLeft(before, ops[..n], mid, nodemax, key);
    }
  }

  /** Any sequence of puts and deletions, until a put finds no room: the tree stands for the map that
      the sequence leaves. */
  method Run(store: map<nat, Page>, root: nat, h: nat, ops: seq<Op>, nodemax: nat)
    returns (done: nat, rc: PutResult, after: map<nat, Page>)
    requires TreeOk(store, root, h) && forall op <- ops :: op.Insert? ==> EntryOk(op.e)
    ensures done <= |ops| && (done < |ops| <==> rc.Refused?)
    ensures done < |ops| ==> Stuck(after, root, h, ops[done], nodemax)
    ensures TreeOk(after, root, h)
    ensures Leaves(AsMap(store, root, h), ops[..done], AsMap(after, root, h), nodemax)
    ensures forall k: Bytes :: InTree(after, root, h, k) <==> Holds(InTree(store, root, h, k), ops[..done], k)
  {
    hide TreeOk, InTree, EntryAdded, EntryOk, NodeGone, Does, AsMap, NodeFor, Leads, NoPlace;
    done, rc, after := 0, Added, store;
    while done < |ops|
      invariant done <= |ops| && TreeOk(after, root, h) && !rc.Refused?
      invariant Leaves(AsMap(store, root, h), ops[..done], AsMap(after, root, h), nodemax)
      invariant forall k: Bytes :: InTree(after, root, h, k) <==> Holds(InTree(store, root, h, k), ops[..done], k)
    {
      var leaf, at;
      ghost var mid := AsMap(after, root, h);
      assert ops[..done + 1][..done] == ops[..done] && ops[..done + 1][done] == ops[done];
      match ops[done] {
        case Insert(e) =>
          rc, after, leaf, at := Put(after, root, h, e, nodemax);
          if rc.Refused? {
            return;
          }
        case Remove(key) =>
          var found;
          found, after, leaf, at := Delete(after, root, h, key);
          Removes(key, mid, AsMap(after, root, h), nodemax);
      }
      assert Does(ops[done], mid, AsMap(after, root, h), nodemax);
      done := done + 1;
    }
  }

  lemma Removes(key: Bytes, before: imap<Bytes, Node>, after: imap<Bytes, Node>, nodemax: nat)
    requires Does(Remove(key), before, after, 0)
    ensures Does(Remove(key), before, after, nodemax)
  {
  }
}
