/**
  * Finding a key: the binary search of one page and the descent from the root of a B-tree.
  * On a tree whose branch keys separate their children, the descent arrives at the one leaf
  * that can hold the key, so the search succeeds exactly when the tree holds it; and adding at
  * the index that the search returns keeps a page in order.
  *
  * Keys are compared as mdb_cmp_memn compares them: byte by byte, a prefix first.
  */
module PageSearch {
  import opened ByteSeq
  import opened SlottedPage

  // ---------------------------------------------------------------- key order

  predicate Below(a: Bytes, b: Bytes) {
    b != [] && (a == [] || a[0] < b[0] || (a[0] == b[0] && Below(a[1..], b[1..])))
  }

  lemma {:induction false} BelowSkip(a: Bytes, b: Bytes, k: nat)
    requires k <= |a| && k <= |b| && a[..k] == b[..k]
    ensures Below(a, b) == Below(a[k..], b[k..])
    decreases k
  {
    if k == 0 {
      assert a[0..] == a && b[0..] == b;
    } else {
      assert a[0] == a[..k][0] == b[0];
      assert a[1..][..k - 1] == a[..k][1..] && b[1..][..k - 1] == b[..k][1..];
      BelowSkip(a[1..], b[1..], k - 1);
      assert a[1..][k - 1..] == a[k..] && b[1..][k - 1..] == b[k..];
    }
  }

  lemma {:induction false} OneWay(a: Bytes, b: Bytes)
    ensures !(Below(a, b) && Below(b, a)) && !Below(a, a)
    decreases |a|
  {
    if a != [] {
      OneWay(a[1..], a[1..]);
      if b != [] {
        OneWay(a[1..], b[1..]);
      }
    }
  }

  lemma {:induction false} Chain(a: Bytes, b: Bytes, c: Bytes)
    requires Below(a, b) && Below(b, c)
    ensures Below(a, c)
    decreases |a|
  {
    if a != [] && a[0] == b[0] == c[0] {
      Chain(a[1..], b[1..], c[1..]);
    }
  }

  lemma {:induction false} Total(a: Bytes, b: Bytes)
    ensures Below(a, b) || Below(b, a) || a == b
    decreases |a|
  {
    if a != [] && b != [] && a[0] == b[0] {
      Total(a[1..], b[1..]);
      assert a == [a[0]] + a[1..] && b == [b[0]] + b[1..];
    }
  }

  // Neither end of a chain is below the other way round.
  lemma ChainFrom(a: Bytes, b: Bytes, c: Bytes)
    requires !Below(b, a) && Below(b, c)
    ensures Below(a, c)
  {
    Total(a, b);
    if a != b {
      Chain(a, b, c);
    }
  }

  // mdb_cmp_memn
  method Compare(a: Bytes, b: Bytes) returns (rc: int)
    ensures rc < 0 <==> Below(a, b)
    ensures rc > 0 <==> Below(b, a)
    ensures rc == 0 <==> a == b
  {
    OneWay(a, b);
    var len := if |a| > |b| then |b| else |a|;
    var k := 0;
    while k < len && a[k] == b[k]
      invariant k <= len && a[..k] == b[..k]
    {
      k := k + 1;
    }
    BelowSkip(a, b, k);
    BelowSkip(b, a, k);
    rc := if k < len then a[k] - b[k] else |a| - |b|;
  }

  // ---------------------------------------------------------------- one page

  function KeyAt(p: Page, i: nat): (key: Bytes)
    requires Shape(p) && i < |p.ptrs|
    ensures key == Nodes(p)[i].key
  {
    assert BlockIn(p, i);
    NodeAt(p.mem, p.leaf, p.ptrs[i]).key
  }

  // The first key of a branch page is never looked at: it stands for every smaller key.
  function FirstKey(p: Page): nat {
    if p.leaf then 0 else 1
  }

  ghost predicate InOrder(p: Page)
    requires Shape(p)
  {
    forall i: nat, j: nat :: FirstKey(p) <= i < j < |p.ptrs| ==> Below(KeyAt(p, i), KeyAt(p, j))
  }

  // The keys before `i` are below `key`, the keys from `j` on above it.
  ghost predicate Around(p: Page, key: Bytes, i: int, j: int)
    requires Shape(p)
  {
    && (forall m: nat :: FirstKey(p) <= m < i && m < |p.ptrs| ==> Below(KeyAt(p, m), key))
    && (forall m: nat :: FirstKey(p) <= m && j <= m < |p.ptrs| ==> Below(key, KeyAt(p, m)))
  }

  /** mdb_node_search: the smallest entry that is not below the key. */
  method NodeSearch(p: Page, key: Bytes) returns (i: nat, exact: bool)
    requires Shape(p) && InOrder(p)
    ensures i <= |p.ptrs| && (FirstKey(p) < |p.ptrs| ==> FirstKey(p) <= i)
    ensures exact ==> i < |p.ptrs| && Around(p, key, i, i + 1)
    ensures exact && FirstKey(p) < |p.ptrs| ==> KeyAt(p, i) == key
    ensures !exact ==> Around(p, key, i, i)
    ensures |p.ptrs| <= FirstKey(p) ==> i == 0 && exact == (|p.ptrs| > 0)
  {
    hide Shape, InOrder, Below, Around;
    var nkeys := |p.ptrs|;
    var low: int, high: int, rc := FirstKey(p), nkeys - 1, 0;
    i := 0;
    AroundNothing(p, key);
    while low <= high
      invariant FirstKey(p) <= low && high < nkeys && low <= high + 2 && (FirstKey(p) <= nkeys ==> low <= high + 1)
      invariant Around(p, key, low, high + 1)
      invariant rc == 0 ==> low == FirstKey(p) && high == nkeys - 1 && i == 0
      invariant rc > 0 ==> i + 1 == low
      invariant rc < 0 ==> i == high + 1
      invariant rc != 0 ==> FirstKey(p) <= i < nkeys
      decreases high - low
    {
      i := (low + high) / 2;
      rc := Compare(key, KeyAt(p, i));
      if rc == 0 {
        AroundFound(p, key, i);
        break;
      }
      if rc > 0 {
        AroundBelow(p, key, low, i, high + 1);
        low := i + 1;
      } else {
        AroundAbove(p, key, low, i, high + 1);
        high := i - 1;
      }
    }
    if rc > 0 {
      i := i + 1;
    }
    exact := rc == 0 && nkeys > 0;
  }

  lemma AroundNothing(p: Page, key: Bytes)
    requires Shape(p)
    ensures Around(p, key, FirstKey(p), |p.ptrs|)
    ensures |p.ptrs| <= FirstKey(p) ==> Around(p, key, 0, 0) && Around(p, key, 0, 1)
  {
    hide Below;
  }

  lemma AroundFound(p: Page, key: Bytes, i: nat)
    requires Shape(p) && InOrder(p) && FirstKey(p) <= i < |p.ptrs| && KeyAt(p, i) == key
    ensures Around(p, key, i, i + 1)
  {
    hide Shape, Below;
  }

  lemma AroundBelow(p: Page, key: Bytes, low: int, i: nat, j: int)
    requires Shape(p) && InOrder(p) && FirstKey(p) <= i < |p.ptrs| && Below(KeyAt(p, i), key) && Around(p, key, low, j)
    ensures Around(p, key, i + 1, j)
  {
    hide Shape, Below;
    forall m: nat | FirstKey(p) <= m < i
      ensures Below(KeyAt(p, m), key)
    {
      Chain(KeyAt(p, m), KeyAt(p, i), key);
    }
  }

  lemma AroundAbove(p: Page, key: Bytes, low: int, i: nat, j: int)
    requires Shape(p) && InOrder(p) && FirstKey(p) <= i < |p.ptrs| && Below(key, KeyAt(p, i)) && Around(p, key, low, j)
    ensures Around(p, key, low, i)
  {
    hide Shape, Below;
    forall m: nat | i < m < |p.ptrs|
      ensures Below(key, KeyAt(p, m))
    {
      Chain(key, KeyAt(p, i), KeyAt(p, m));
    }
  }

  // ---------------------------------------------------------------- keeping a page in order

  lemma KeysOf(p: Page)
    requires Shape(p)
    ensures |Nodes(p)| == |p.ptrs| && forall i: nat :: i < |p.ptrs| ==> KeyAt(p, i) == Nodes(p)[i].key
  {
  }

  /** A node added to a leaf where the search says keeps the leaf in order. */
  lemma AddInOrder(p: Page, q: Page, at: nat, n: Node, exact: bool)
    requires Shape(p) && Shape(q) && p.leaf && q.leaf && InOrder(p)
    requires NodeInserted(Nodes(p), Nodes(q), at, n, exact) && Around(p, n.key, at, at)
    ensures InOrder(q)
  {
    hide Shape, Below, Nodes;
    KeysOf(p);
    KeysOf(q);
    forall i: nat, j: nat | i < j < |q.ptrs|
      ensures Below(KeyAt(q, i), KeyAt(q, j))
    {
      var a, b := Nodes(p), Nodes(q);
      assert i < at ==> b[i] == a[i] && KeyAt(p, i) == a[i].key;
      assert i > at ==> b[i] == a[i - 1] && KeyAt(p, i - 1) == a[i - 1].key;
      assert j < at ==> b[j] == a[j] && KeyAt(p, j) == a[j].key;
      assert j > at ==> b[j] == a[j - 1] && KeyAt(p, j - 1) == a[j - 1].key;
    }
  }

  lemma DelInOrder(p: Page, q: Page, at: nat)
    requires Shape(p) && Shape(q) && p.leaf == q.leaf && InOrder(p) && at < |p.ptrs|
    requires Nodes(q) == Nodes(p)[..at] + Nodes(p)[at + 1..]
    ensures InOrder(q)
  {
    hide Shape, Below, Nodes;
    KeysOf(p);
    KeysOf(q);
    forall i: nat, j: nat | FirstKey(q) <= i < j < |q.ptrs|
      ensures Below(KeyAt(q, i), KeyAt(q, j))
    {
      var x, y := if i < at then i else i + 1, if j < at then j else j + 1;
      assert KeyAt(q, i) == KeyAt(p, x) && KeyAt(q, j) == KeyAt(p, y);
    }
  }

  /** A branch key may move freely between its neighbours. */
  lemma RekeyInOrder(p: Page, q: Page, at: nat, key: Bytes)
    requires Shape(p) && Shape(q) && !p.leaf && !q.leaf && InOrder(p) && at < |p.ptrs|
    requires Nodes(q) == Nodes(p)[at := Nodes(p)[at].(key := key)]
    requires at > 1 ==> Below(KeyAt(p, at - 1), key)
    requires at + 1 < |p.ptrs| ==> Below(key, KeyAt(p, at + 1))
    ensures InOrder(q)
  {
    hide Shape, Below, Nodes;
    KeysOf(p);
    KeysOf(q);
    forall i: nat, j: nat | 1 <= i < j < |q.ptrs|
      ensures Below(KeyAt(q, i), KeyAt(q, j))
    {
      assert i != at ==> KeyAt(q, i) == KeyAt(p, i);
      assert j != at ==> KeyAt(q, j) == KeyAt(p, j);
      if j == at && i < at - 1 {
        Chain(KeyAt(p, i), KeyAt(p, at - 1), key);
      } else if i == at && at + 1 < j {
        Chain(key, KeyAt(p, at + 1), KeyAt(p, j));
      }
    }
  }

  // ---------------------------------------------------------------- the tree

  datatype Bound = Open | At(key: Bytes)

  ghost predicate Within(key: Bytes, lo: Bound, hi: Bound) {
    (lo.At? ==> !Below(key, lo.key)) && (hi.At? ==> Below(key, hi.key))
  }

  function ChildPage(p: Page, i: nat): nat
    requires Shape(p) && i < |p.ptrs|
  {
    assert BlockIn(p, i);
    NodePgno(NodeAt(p.mem, p.leaf, p.ptrs[i]))
  }

  ghost function LoOf(p: Page, i: nat, lo: Bound): Bound
    requires Shape(p) && i < |p.ptrs|
  {
    if i == 0 then lo else At(KeyAt(p, i))
  }

  ghost function HiOf(p: Page, i: nat, hi: Bound): Bound
    requires Shape(p) && i < |p.ptrs|
  {
    if i + 1 == |p.ptrs| then hi else At(KeyAt(p, i + 1))
  }

  // A tree of height h whose keys lie within the bounds; branch keys separate the children.
  ghost predicate Tree(store: map<nat, Page>, pgno: nat, h: nat, lo: Bound, hi: Bound)
    decreases h
  {
    && pgno in store && NodeOk(store[pgno], h, lo, hi)
    && (h > 0 ==> forall m: nat :: m < |store[pgno].ptrs| ==>
          Tree(store, ChildPage(store[pgno], m), h - 1, LoOf(store[pgno], m, lo), HiOf(store[pgno], m, hi)))
  }

  ghost predicate NodeOk(p: Page, h: nat, lo: Bound, hi: Bound) {
    && Shape(p) && InOrder(p) && (p.leaf <==> h == 0) && (h > 0 ==> |p.ptrs| > 0)
    && forall m: nat :: FirstKey(p) <= m < |p.ptrs| ==> Within(KeyAt(p, m), lo, hi)
  }

  ghost predicate InTree(store: map<nat, Page>, pgno: nat, h: nat, key: Bytes)
    decreases h
  {
    && pgno in store && Shape(store[pgno])
    && if h == 0 then HasKey(store[pgno], key)
       else exists m: nat :: m < |store[pgno].ptrs| && InTree(store, ChildPage(store[pgno], m), h - 1, key)
  }

  ghost predicate HasKey(p: Page, key: Bytes)
    requires Shape(p)
  {
    exists m: nat :: m < |p.ptrs| && KeyAt(p, m) == key
  }

  // A tree by its root and its children.
  lemma TreeIs(store: map<nat, Page>, pgno: nat, h: nat, lo: Bound, hi: Bound)
    ensures Tree(store, pgno, h, lo, hi) <==>
      && pgno in store && NodeOk(store[pgno], h, lo, hi)
      && (h > 0 ==> forall m: nat :: m < |store[pgno].ptrs| ==>
            Tree(store, ChildPage(store[pgno], m), h - 1, LoOf(store[pgno], m, lo), HiOf(store[pgno], m, hi)))
  {
  }

  lemma InTreeIs(store: map<nat, Page>, pgno: nat, h: nat, key: Bytes)
    ensures InTree(store, pgno, h, key) <==>
      && pgno in store && Shape(store[pgno])
      && if h == 0 then HasKey(store[pgno], key)
         else exists m: nat :: m < |store[pgno].ptrs| && InTree(store, ChildPage(store[pgno], m), h - 1, key)
  {
  }

  lemma UpTo(a: Bytes, b: Bytes, c: Bytes)
    requires !Below(b, a) && !Below(c, b)
    ensures !Below(c, a)
  {
    if Below(c, a) {
      ChainFrom(b, c, a);
    }
  }

  // A child's range lies within its parent's.
  lemma Narrower(p: Page, h: nat, lo: Bound, hi: Bound, m: nat, key: Bytes)
    requires NodeOk(p, h, lo, hi) && h > 0 && m < |p.ptrs| && Within(key, LoOf(p, m, lo), HiOf(p, m, hi))
    ensures Within(key, lo, hi)
  {
    hide Shape, Below, InOrder;
    if m > 0 && lo.At? {
      UpTo(lo.key, KeyAt(p, m), key);
    }
    if m + 1 < |p.ptrs| && hi.At? {
      Chain(key, KeyAt(p, m + 1), hi.key);
    }
  }

  lemma {:induction false} KeysWithin(store: map<nat, Page>, pgno: nat, h: nat, lo: Bound, hi: Bound, key: Bytes)
    requires Tree(store, pgno, h, lo, hi) && InTree(store, pgno, h, key)
    ensures Within(key, lo, hi)
    decreases h
  {
    hide Shape, Below, InOrder, Within, NodeOk, HasKey, Tree, InTree, LoOf, HiOf, ChildPage;
    TreeIs(store, pgno, h, lo, hi);
    InTreeIs(store, pgno, h, key);
    var p := store[pgno];
    NodeShape(p, h, lo, hi);
    if h == 0 {
      LeafWithin(p, lo, hi, key);
    } else {
      var m: nat :| m < |p.ptrs| && InTree(store, ChildPage(p, m), h - 1, key);
      KeysWithin(store, ChildPage(p, m), h - 1, LoOf(p, m, lo), HiOf(p, m, hi), key);
      Narrower(p, h, lo, hi, m, key);
    }
  }

  lemma NodeShape(p: Page, h: nat, lo: Bound, hi: Bound)
    requires NodeOk(p, h, lo, hi)
    ensures Shape(p) && InOrder(p) && (p.leaf <==> h == 0)
  {
  }

  lemma LeafWithin(p: Page, lo: Bound, hi: Bound, key: Bytes)
    requires NodeOk(p, 0, lo, hi) && HasKey(p, key)
    ensures Within(key, lo, hi)
  {
    hide Shape, Below, InOrder;
  }

  // Below the bound of an earlier child is below every later branch key.
  lemma Separated(p: Page, key: Bytes, m: nat, i: nat)
    requires Shape(p) && InOrder(p) && !p.leaf && m < i < |p.ptrs| && Below(key, KeyAt(p, m + 1))
    ensures Below(key, KeyAt(p, i))
  {
    hide Shape, Below;
    if m + 1 < i {
      Chain(key, KeyAt(p, m + 1), KeyAt(p, i));
    }
  }

  // The ranges of two children have no key in common.
  lemma OneChild(p: Page, lo: Bound, hi: Bound, key: Bytes, m: nat, i: nat)
    requires Shape(p) && InOrder(p) && !p.leaf && m < |p.ptrs| && i < |p.ptrs|
    requires Within(key, LoOf(p, m, lo), HiOf(p, m, hi)) && Within(key, LoOf(p, i, lo), HiOf(p, i, hi))
    ensures m == i
  {
    hide Shape, Below, InOrder;
    if m < i {
      Separated(p, key, m, i);
    } else if i < m {
      Separated(p, key, i, m);
    }
  }

  /** The key is in the tree exactly when it is in the child whose range holds it. */
  lemma Descend(store: map<nat, Page>, pgno: nat, h: nat, lo: Bound, hi: Bound, key: Bytes, i: nat)
    requires Tree(store, pgno, h, lo, hi) && h > 0 && i < |store[pgno].ptrs|
    requires Within(key, LoOf(store[pgno], i, lo), HiOf(store[pgno], i, hi))
    ensures InTree(store, pgno, h, key) <==> InTree(store, ChildPage(store[pgno], i), h - 1, key)
  {
    hide Shape, Below, InOrder, Within;
    var p := store[pgno];
    if InTree(store, pgno, h, key) {
      var m: nat :| m < |p.ptrs| && InTree(store, ChildPage(p, m), h - 1, key);
      KeysWithin(store, ChildPage(p, m), h - 1, LoOf(p, m, lo), HiOf(p, m, hi), key);
      OneChild(p, lo, hi, key, m, i);
    }
  }

  // The branch to follow, as mdb_page_search_root chooses it.
  method ChildIndex(p: Page, key: Bytes, ghost h: nat, ghost lo: Bound, ghost hi: Bound) returns (i: nat)
    requires NodeOk(p, h, lo, hi) && h > 0 && Within(key, lo, hi)
    ensures i < |p.ptrs| && Within(key, LoOf(p, i, lo), HiOf(p, i, hi))
  {
    hide Shape, Below, InOrder;
    var j, exact := NodeSearch(p, key);
    if j >= |p.ptrs| {
      i := |p.ptrs| - 1;
    } else {
      i := j;
      if !exact {
        i := i - 1;
      }
    }
    OneWay(key, key);
    if i > 0 {
      OneWay(key, KeyAt(p, i));
    }
  }

  /** mdb_page_search_root and mdb_node_search: from the root to the leaf that can hold the key. */
  method Find(store: map<nat, Page>, root: nat, h: nat, key: Bytes) returns (leaf: nat, i: nat, exact: bool)
    requires Tree(store, root, h, Open, Open)
    ensures leaf in store && Shape(store[leaf]) && InOrder(store[leaf]) && store[leaf].leaf
    ensures i <= |store[leaf].ptrs|
    ensures exact <==> InTree(store, root, h, key)
    ensures exact ==> i < |store[leaf].ptrs| && KeyAt(store[leaf], i) == key
    ensures !exact ==> Around(store[leaf], key, i, i)
    ensures Leads(store, root, h, Open, Open, key, leaf)
  {
    hide Shape, Below, InOrder, Around;
    leaf := root;
    ghost var level, lo, hi := h, Open, Open;
    while !store[leaf].leaf
      invariant Tree(store, leaf, level, lo, hi) && Within(key, lo, hi)
      invariant InTree(store, root, h, key) <==> InTree(store, leaf, level, key)
      invariant forall x: nat :: Leads(store, leaf, level, lo, hi, key, x) ==> Leads(store, root, h, Open, Open, key, x)
      decreases level
    {
      var p := store[leaf];
      var m := ChildIndex(p, key, level, lo, hi);
      Descend(store, leaf, level, lo, hi, key, m);
      leaf := ChildPage(p, m);
      level, lo, hi := level - 1, LoOf(p, m, lo), HiOf(p, m, hi);
    }
    i, exact := NodeSearch(store[leaf], key);
    LeafHas(store[leaf], key, i, exact);
  }

  lemma LeafHas(p: Page, key: Bytes, i: nat, exact: bool)
    requires Shape(p) && p.leaf && i <= |p.ptrs|
    requires exact ==> i < |p.ptrs| && KeyAt(p, i) == key
    requires !exact ==> Around(p, key, i, i)
    ensures HasKey(p, key) <==> exact
  {
    hide Shape, Below;
    OneWay(key, key);
  }

  // ---------------------------------------------------------------- changing the tree

  // The tree uses page x.
  ghost predicate Uses(store: map<nat, Page>, pgno: nat, h: nat, x: nat)
    decreases h
  {
    || x == pgno
    || (h > 0 && pgno in store && Shape(store[pgno])
        && exists m: nat :: m < |store[pgno].ptrs| && Uses(store, ChildPage(store[pgno], m), h - 1, x))
  }

  ghost predicate ChildUses(store: map<nat, Page>, pgno: nat, h: nat, m: nat, x: nat)
    requires h > 0
  {
    pgno in store && Shape(store[pgno]) && m < |store[pgno].ptrs| && Uses(store, ChildPage(store[pgno], m), h - 1, x)
  }

  // No page is used twice.
  ghost predicate Separate(store: map<nat, Page>, pgno: nat, h: nat)
    decreases h
  {
    h > 0 && pgno in store && Shape(store[pgno]) ==>
      && (forall m: nat :: m < |store[pgno].ptrs| ==> Separate(store, ChildPage(store[pgno], m), h - 1))
      && (forall m: nat :: !ChildUses(store, pgno, h, m, pgno))
      && (forall m: nat, n: nat, x: nat :: ChildUses(store, pgno, h, m, x) && ChildUses(store, pgno, h, n, x) ==> m == n)
  }

  // The descent for the key ends at `leaf`.
  ghost predicate Leads(store: map<nat, Page>, pgno: nat, h: nat, lo: Bound, hi: Bound, key: Bytes, leaf: nat)
    decreases h
  {
    if h == 0 then leaf == pgno
    else
      && pgno in store && Shape(store[pgno])
      && exists m: nat :: m < |store[pgno].ptrs| && Within(key, LoOf(store[pgno], m, lo), HiOf(store[pgno], m, hi))
           && Leads(store, ChildPage(store[pgno], m), h - 1, LoOf(store[pgno], m, lo), HiOf(store[pgno], m, hi), key, leaf)
  }

  lemma {:induction false} LeadsUses(store: map<nat, Page>, pgno: nat, h: nat, lo: Bound, hi: Bound, key: Bytes, leaf: nat)
    requires Leads(store, pgno, h, lo, hi, key, leaf)
    ensures Uses(store, pgno, h, leaf)
    decreases h
  {
    hide Shape, Within, LoOf, HiOf, ChildPage;
    if h > 0 {
      var p := store[pgno];
      var m: nat :| m < |p.ptrs| && Within(key, LoOf(p, m, lo), HiOf(p, m, hi))
        && Leads(store, ChildPage(p, m), h - 1, LoOf(p, m, lo), HiOf(p, m, hi), key, leaf);
      LeadsUses(store, ChildPage(p, m), h - 1, LoOf(p, m, lo), HiOf(p, m, hi), key, leaf);
      assert ChildUses(store, pgno, h, m, leaf);
    }
  }

  // `q` holds the keys of `p`, with `key` or without it.
  ghost predicate KeyChanged(p: Page, q: Page, key: Bytes, present: bool) {
    && Shape(p) && Shape(q) && q.leaf && InOrder(q)
    && forall k: Bytes :: HasKey(q, k) <==> if k == key then present else HasKey(p, k)
  }

  lemma AddedKey(p: Page, q: Page, at: nat, n: Node, exact: bool)
    requires Shape(p) && Shape(q) && p.leaf && q.leaf && InOrder(p)
    requires NodeInserted(Nodes(p), Nodes(q), at, n, exact) && Around(p, n.key, at, at)
    ensures KeyChanged(p, q, n.key, true)
  {
    hide Shape, Below, Nodes, InOrder, Around;
    AddInOrder(p, q, at, n, exact);
    KeysOf(p);
    KeysOf(q);
    var a, b := Nodes(p), Nodes(q);
    forall k: Bytes
      ensures HasKey(q, k) <==> if k == n.key then true else HasKey(p, k)
    {
      if m: nat :| m < |q.ptrs| && KeyAt(q, m) == k {
        assert m < at ==> KeyAt(p, m) == k;
        assert m > at ==> KeyAt(p, m - 1) == k;
      }
      if m: nat :| m < |p.ptrs| && KeyAt(p, m) == k {
        assert m < at ==> KeyAt(q, m) == k;
        assert m >= at ==> KeyAt(q, m + 1) == k;
      }
      assert KeyAt(q, at) == n.key;
    }
  }

  lemma DeletedKey(p: Page, q: Page, at: nat)
    requires Shape(p) && Shape(q) && p.leaf && q.leaf && InOrder(p) && at < |p.ptrs|
    requires Nodes(q) == Nodes(p)[..at] + Nodes(p)[at + 1..]
    ensures KeyChanged(p, q, KeyAt(p, at), false)
  {
    hide Shape, Below, Nodes;
    DelInOrder(p, q, at);
    KeysOf(p);
    KeysOf(q);
    var key := KeyAt(p, at);
    OneWay(key, key);
    forall k: Bytes
      ensures HasKey(q, k) <==> if k == key then false else HasKey(p, k)
    {
      if m: nat :| m < |q.ptrs| && KeyAt(q, m) == k {
        assert m < at ==> KeyAt(p, m) == k;
        assert m >= at ==> KeyAt(p, m + 1) == k;
      }
      if m: nat :| m < |p.ptrs| && KeyAt(p, m) == k && k != key {
        assert m < at ==> KeyAt(q, m) == k;
        assert m > at ==> KeyAt(q, m - 1) == k;
      }
    }
  }

  // A tree that does not use the page is not affected by it.
  lemma {:induction false} Frame(store: map<nat, Page>, pgno: nat, h: nat, lo: Bound, hi: Bound, leaf: nat, q: Page)
    requires Tree(store, pgno, h, lo, hi) && !Uses(store, pgno, h, leaf)
    ensures Tree(store[leaf := q], pgno, h, lo, hi)
    decreases h
  {
    hide NodeOk, Shape;
    var p := store[pgno];
    NodeShape(p, h, lo, hi);
    if h > 0 {
      forall m: nat | m < |p.ptrs|
        ensures Tree(store[leaf := q], ChildPage(p, m), h - 1, LoOf(p, m, lo), HiOf(p, m, hi))
      {
        assert !ChildUses(store, pgno, h, m, leaf);
        Frame(store, ChildPage(p, m), h - 1, LoOf(p, m, lo), HiOf(p, m, hi), leaf, q);
      }
    }
  }

  lemma {:induction false} FrameKey(store: map<nat, Page>, pgno: nat, h: nat, leaf: nat, q: Page, k: Bytes)
    requires !Uses(store, pgno, h, leaf)
    ensures InTree(store[leaf := q], pgno, h, k) <==> InTree(store, pgno, h, k)
    decreases h
  {
    hide Shape, HasKey;
    if h > 0 && pgno in store && Shape(store[pgno]) {
      var p := store[pgno];
      forall m: nat | m < |p.ptrs|
        ensures InTree(store[leaf := q], ChildPage(p, m), h - 1, k) <==> InTree(store, ChildPage(p, m), h - 1, k)
      {
        assert !ChildUses(store, pgno, h, m, leaf);
        FrameKey(store, ChildPage(p, m), h - 1, leaf, q, k);
      }
    }
  }

  // The next step of the descent, and that no other child uses the leaf.
  lemma NextStep(store: map<nat, Page>, pgno: nat, h: nat, lo: Bound, hi: Bound, key: Bytes, leaf: nat) returns (i: nat)
    requires h > 0 && pgno in store && Shape(store[pgno])
    requires Separate(store, pgno, h) && Leads(store, pgno, h, lo, hi, key, leaf)
    ensures i < |store[pgno].ptrs| && leaf != pgno && Within(key, LoOf(store[pgno], i, lo), HiOf(store[pgno], i, hi))
    ensures Separate(store, ChildPage(store[pgno], i), h - 1)
    ensures Leads(store, ChildPage(store[pgno], i), h - 1, LoOf(store[pgno], i, lo), HiOf(store[pgno], i, hi), key, leaf)
    ensures forall m: nat :: m < |store[pgno].ptrs| && m != i ==> !Uses(store, ChildPage(store[pgno], m), h - 1, leaf)
  {
    hide Shape, Within, Uses, LoOf, HiOf, ChildPage;
    var p := store[pgno];
    i :| i < |p.ptrs| && Within(key, LoOf(p, i, lo), HiOf(p, i, hi))
      && Leads(store, ChildPage(p, i), h - 1, LoOf(p, i, lo), HiOf(p, i, hi), key, leaf);
    LeadsUses(store, ChildPage(p, i), h - 1, LoOf(p, i, lo), HiOf(p, i, hi), key, leaf);
    assert ChildUses(store, pgno, h, i, leaf) && !ChildUses(store, pgno, h, i, pgno);
    forall m: nat | m < |p.ptrs| && m != i
      ensures !Uses(store, ChildPage(p, m), h - 1, leaf)
    {
      assert !ChildUses(store, pgno, h, m, leaf);
    }
  }

  lemma LeadsHere(store: map<nat, Page>, pgno: nat, lo: Bound, hi: Bound, key: Bytes, leaf: nat)
    requires Leads(store, pgno, 0, lo, hi, key, leaf)
    ensures leaf == pgno
  {
  }

  /** Adding a key to the leaf that the descent reaches, or deleting it there, leaves a tree. */
  lemma {:induction false} ChangeInTree(store: map<nat, Page>, pgno: nat, h: nat, lo: Bound, hi: Bound, key: Bytes, leaf: nat, q: Page, present: bool)
    requires Tree(store, pgno, h, lo, hi) && Separate(store, pgno, h) && Within(key, lo, hi)
    requires Leads(store, pgno, h, lo, hi, key, leaf) && leaf in store && KeyChanged(store[leaf], q, key, present)
    ensures Tree(store[leaf := q], pgno, h, lo, hi)
    decreases h
  {
    hide NodeOk, Shape, HasKey, Within, KeyChanged, Separate, Uses, Leads, Tree, LoOf, HiOf, ChildPage;
    TreeIs(store, pgno, h, lo, hi);
    TreeIs(store[leaf := q], pgno, h, lo, hi);
    var p := store[pgno];
    NodeShape(p, h, lo, hi);
    if h == 0 {
      LeadsHere(store, pgno, lo, hi, key, leaf);
      LeafChanged(p, q, lo, hi, key, present);
    } else {
      var i := NextStep(store, pgno, h, lo, hi, key, leaf);
      ChangeInTree(store, ChildPage(p, i), h - 1, LoOf(p, i, lo), HiOf(p, i, hi), key, leaf, q, present);
      forall m: nat | m < |p.ptrs| && m != i
        ensures Tree(store[leaf := q], ChildPage(p, m), h - 1, LoOf(p, m, lo), HiOf(p, m, hi))
      {
        Frame(store, ChildPage(p, m), h - 1, LoOf(p, m, lo), HiOf(p, m, hi), leaf, q);
      }
    }
  }

  /** Of all keys only that one is added or gone. */
  lemma {:induction false} ChangedInTree(store: map<nat, Page>, pgno: nat, h: nat, lo: Bound, hi: Bound, key: Bytes, leaf: nat, q: Page, present: bool, k: Bytes)
    requires Tree(store, pgno, h, lo, hi) && Separate(store, pgno, h) && Within(key, lo, hi)
    requires Leads(store, pgno, h, lo, hi, key, leaf) && leaf in store && KeyChanged(store[leaf], q, key, present)
    ensures InTree(store[leaf := q], pgno, h, k) <==> if k == key then present else InTree(store, pgno, h, k)
    decreases h
  {
    hide NodeOk, Shape, HasKey, Within, KeyChanged, Separate, Uses, Leads, Tree, InTree, LoOf, HiOf, ChildPage;
    TreeIs(store, pgno, h, lo, hi);
    InTreeIs(store, pgno, h, k);
    InTreeIs(store[leaf := q], pgno, h, k);
    var p := store[pgno];
    NodeShape(p, h, lo, hi);
    if h == 0 {
      LeadsHere(store, pgno, lo, hi, key, leaf);
      LeafChanged(p, q, lo, hi, key, present);
    } else {
      var i := NextStep(store, pgno, h, lo, hi, key, leaf);
      ChangedInTree(store, ChildPage(p, i), h - 1, LoOf(p, i, lo), HiOf(p, i, hi), key, leaf, q, present, k);
      forall m: nat | m < |p.ptrs| && m != i
        ensures InTree(store[leaf := q], ChildPage(p, m), h - 1, k) <==> InTree(store, ChildPage(p, m), h - 1, k)
        ensures !InTree(store, ChildPage(p, m), h - 1, key)
      {
        FrameKey(store, ChildPage(p, m), h - 1, leaf, q, k);
        OnlyThere(store, p, h, lo, hi, key, i, m);
      }
    }
  }

  // The key is in no other child than the one whose range holds it.
  lemma OnlyThere(store: map<nat, Page>, p: Page, h: nat, lo: Bound, hi: Bound, key: Bytes, i: nat, m: nat)
    requires h > 0 && Shape(p) && InOrder(p) && !p.leaf && i < |p.ptrs| && m < |p.ptrs| && m != i
    requires Within(key, LoOf(p, i, lo), HiOf(p, i, hi))
    requires Tree(store, ChildPage(p, m), h - 1, LoOf(p, m, lo), HiOf(p, m, hi))
    ensures !InTree(store, ChildPage(p, m), h - 1, key)
  {
    hide Shape, InOrder, Within, Tree, InTree, LoOf, HiOf, ChildPage;
    if InTree(store, ChildPage(p, m), h - 1, key) {
      KeysWithin(store, ChildPage(p, m), h - 1, LoOf(p, m, lo), HiOf(p, m, hi), key);
      OneChild(p, lo, hi, key, m, i);
    }
  }

  lemma LeafChanged(p: Page, q: Page, lo: Bound, hi: Bound, key: Bytes, present: bool)
    requires NodeOk(p, 0, lo, hi) && KeyChanged(p, q, key, present) && Within(key, lo, hi)
    ensures NodeOk(q, 0, lo, hi) && Shape(p) && Shape(q)
    ensures forall k: Bytes :: HasKey(q, k) <==> if k == key then present else HasKey(p, k)
  {
    hide Shape, InOrder, Within;
    forall m: nat | m < |q.ptrs|
      ensures Within(KeyAt(q, m), lo, hi)
    {
      assert HasKey(q, KeyAt(q, m));
    }
  }
}
