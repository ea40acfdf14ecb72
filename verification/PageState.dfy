// Where the pages of a write transaction are: the value-level view shared by the
// transaction (WriteTxn.dfy) and by the reader/writer protocol (Mvcc.dfy).
module PageState {

  // Pages 0 and 1 are the two meta pages.
  const NUM_METAS: nat := 2

  datatype Pages = Pages(
    txnid: nat,
    tree: set<nat>,               // in use by some database, the freeDB included
    dirty: set<nat>,              // allocated by this transaction
    head: set<nat>,               // reclaimed and not used yet: me_pghead
    last: nat,                    // freeDB records up to this key are consumed: me_pglast
    freed: set<nat>,              // freed by this transaction: mt_free_pgs
    loose: set<nat>,              // allocated and dropped again: mt_loose_pgs
    records: map<nat, set<nat>>,  // the freeDB, by id of the freeing transaction
    next: nat)                    // first page never used: mt_next_pgno

  // A record that the transaction has not consumed yet.
  ghost predicate Live(ps: Pages, k: nat) {
    k in ps.records && ps.last < k < ps.txnid
  }

  ghost predicate InLive(ps: Pages, p: nat) {
    exists k :: Live(ps, k) && p in ps.records[k]
  }

  ghost predicate RecordsApart(ps: Pages) {
    && (forall k, p :: Live(ps, k) && p in ps.records[k] ==>
          p !in ps.tree && p !in ps.head && p !in ps.freed && p !in ps.loose)
    && (forall k, m, p :: Live(ps, k) && Live(ps, m) && p in ps.records[k] && p in ps.records[m] ==> k == m)
  }

  ghost predicate Accounted(ps: Pages, p: nat) {
    p in ps.tree || p in ps.head || p in ps.freed || p in ps.loose || InLive(ps, p)
  }

  /** Every non-meta page below `next` is in exactly one place. */
  ghost predicate Conserved(ps: Pages) {
    && ps.tree !! ps.head !! ps.freed !! ps.loose
    && RecordsApart(ps)
    && (forall p: nat :: Accounted(ps, p) <==> NUM_METAS <= p < ps.next)
    && NUM_METAS <= ps.next
  }

  // ------------------------------------------------------------ transitions

  function RunOf(p: nat, num: nat): (s: set<nat>)
    ensures forall q :: q in s <==> p <= q < p + num
  {
    if num == 0 then {} else RunOf(p, num - 1) + {p + num - 1}
  }

  function TakeLoose(ps: Pages, p: nat): (r: Pages) {
    ps.(loose := ps.loose - {p}, tree := ps.tree + {p}, dirty := ps.dirty + {p})
  }

  function TakeHead(ps: Pages, s: set<nat>): (r: Pages) {
    ps.(head := ps.head - s, tree := ps.tree + s, dirty := ps.dirty + s)
  }

  function TakeNew(ps: Pages, num: nat): (r: Pages) {
    var s := RunOf(ps.next, num);
    ps.(next := ps.next + num, tree := ps.tree + s, dirty := ps.dirty + s)
  }

  // Consume the record k.
  function Fetch(ps: Pages, k: nat): (r: Pages)
    requires k in ps.records
  {
    ps.(head := ps.head + ps.records[k], last := k)
  }

  function FreePages(ps: Pages, s: set<nat>): (r: Pages) {
    ps.(tree := ps.tree - s, freed := ps.freed + s)
  }

  function Loosen(ps: Pages, p: nat): (r: Pages) {
    ps.(tree := ps.tree - {p}, loose := ps.loose + {p})
  }

  // An overflow run acquired by this transaction goes straight back to me_pghead.
  function Release(ps: Pages, s: set<nat>): (r: Pages) {
    ps.(tree := ps.tree - s, head := ps.head + s, dirty := ps.dirty - s)
  }

  // The loose pages join mt_free_pgs and leave the dirty list.
  function LooseToFreed(ps: Pages): (r: Pages) {
    ps.(loose := {}, freed := ps.freed + ps.loose, dirty := ps.dirty - ps.loose)
  }

  // The loose pages join me_pghead.
  function LooseToHead(ps: Pages): (r: Pages) {
    ps.(loose := {}, head := ps.head + ps.loose)
  }

  // k is the next record after the consumed ones.
  ghost predicate IsNextRecord(ps: Pages, k: nat) {
    Live(ps, k) && forall m :: Live(ps, m) ==> k <= m
  }

  // ----------------------------------------------------- conservation lemmas

  lemma TakeLooseConserves(ps: Pages, p: nat)
    requires Conserved(ps) && p in ps.loose
    ensures Conserved(TakeLoose(ps, p))
  {
    SameLive(ps, TakeLoose(ps, p));
    assert forall q: nat :: Accounted(TakeLoose(ps, p), q) <==> Accounted(ps, q);
  }

  lemma TakeHeadConserves(ps: Pages, s: set<nat>)
    requires Conserved(ps) && s <= ps.head
    ensures Conserved(TakeHead(ps, s))
  {
    SameLive(ps, TakeHead(ps, s));
    assert forall q: nat :: Accounted(TakeHead(ps, s), q) <==> Accounted(ps, q);
  }

  lemma TakeNewConserves(ps: Pages, num: nat)
    requires Conserved(ps)
    ensures Conserved(TakeNew(ps, num))
  {
    var r := TakeNew(ps, num);
    SameLive(ps, r);
    forall p | p in ps.head + ps.freed + ps.loose
      ensures p < ps.next
    {
      assert Accounted(ps, p);
    }
    assert RunOf(ps.next, num) !! ps.head + ps.freed + ps.loose;
    assert forall p: nat :: Accounted(r, p) <==> Accounted(ps, p) || ps.next <= p < ps.next + num;
    forall k, p | Live(r, k) && p in r.records[k]
      ensures p < ps.next
    {
      assert Live(ps, k);
      assert Accounted(ps, p);
    }
  }

  lemma FetchConserves(ps: Pages, k: nat)
    requires Conserved(ps) && IsNextRecord(ps, k)
    ensures Conserved(Fetch(ps, k))
  {
    var r := Fetch(ps, k);
    assert forall m :: Live(r, m) <==> Live(ps, m) && m != k;
    forall p: nat
      ensures InLive(ps, p) <==> InLive(r, p) || p in ps.records[k]
    {
      if InLive(ps, p) {
        var m :| Live(ps, m) && p in ps.records[m];
        assert m != k ==> Live(r, m);
      }
      if p in ps.records[k] { assert Live(ps, k); }
    }
    forall p: nat
      ensures Accounted(r, p) <==> Accounted(ps, p)
    {
    }
  }

  lemma FreePagesConserves(ps: Pages, s: set<nat>)
    requires Conserved(ps) && s <= ps.tree
    ensures Conserved(FreePages(ps, s))
  {
    SameLive(ps, FreePages(ps, s));
    assert forall q: nat :: Accounted(FreePages(ps, s), q) <==> Accounted(ps, q);
  }

  lemma LoosenConserves(ps: Pages, p: nat)
    requires Conserved(ps) && p in ps.tree
    ensures Conserved(Loosen(ps, p))
  {
    SameLive(ps, Loosen(ps, p));
    assert forall q: nat :: Accounted(Loosen(ps, p), q) <==> Accounted(ps, q);
  }

  lemma ReleaseConserves(ps: Pages, s: set<nat>)
    requires Conserved(ps) && s <= ps.tree
    ensures Conserved(Release(ps, s))
  {
    SameLive(ps, Release(ps, s));
    assert forall q: nat :: Accounted(Release(ps, s), q) <==> Accounted(ps, q);
  }

  lemma LooseToFreedConserves(ps: Pages)
    requires Conserved(ps)
    ensures Conserved(LooseToFreed(ps))
  {
    SameLive(ps, LooseToFreed(ps));
    assert forall q: nat :: Accounted(LooseToFreed(ps), q) <==> Accounted(ps, q);
  }

  lemma LooseToHeadConserves(ps: Pages)
    requires Conserved(ps)
    ensures Conserved(LooseToHead(ps))
  {
    SameLive(ps, LooseToHead(ps));
    assert forall q: nat :: Accounted(LooseToHead(ps), q) <==> Accounted(ps, q);
  }

  lemma SameLive(a: Pages, b: Pages)
    requires a.records == b.records && a.last == b.last && a.txnid == b.txnid
    ensures forall k :: Live(a, k) <==> Live(b, k)
    ensures forall p: nat :: InLive(a, p) <==> InLive(b, p)
  {
    forall p: nat
      ensures InLive(a, p) <==> InLive(b, p)
    {
      if InLive(a, p) {
        var k :| Live(a, k) && p in a.records[k];
        assert Live(b, k);
      }
      if InLive(b, p) {
        var k :| Live(b, k) && p in b.records[k];
        assert Live(a, k);
      }
    }
  }

  // ---------------------------------------------------------- the saved list

  /** What a successful mdb_freelist_save leaves in the freeDB: the unconsumed
      records as they were, this transaction's record with the pages it freed, and
      under keys up to `last` the pages reclaimed and not used, with the pages still
      loose. */
  ghost predicate Saved(ps: Pages, after: map<nat, set<nat>>) {
    && (forall k :: k in after ==> 1 <= k <= ps.txnid)
    && (forall k :: Live(ps, k) ==> k in after && after[k] == ps.records[k])
    && (forall k :: k in after && ps.last < k < ps.txnid ==> Live(ps, k))
    && (ps.freed != {} ==> ps.txnid in after)
    && (ps.txnid in after ==> after[ps.txnid] == ps.freed)
    && (forall p :: p in ps.head || p in ps.loose <==> exists k :: k in after && k <= ps.last && p in after[k])
    && (forall k, m, p :: k in after && m in after && k <= ps.last && m <= ps.last && p in after[k] && p in after[m] ==> k == m)
    && ps.last < ps.txnid
  }

  ghost predicate InRecords(records: map<nat, set<nat>>, p: nat) {
    exists k :: k in records && p in records[k]
  }

  /** Each non-metapage is reachable exactly once in the snapshot: either used by
      a database or listed in a freeDB record. */
  ghost predicate SnapshotPartition(tree: set<nat>, records: map<nat, set<nat>>, next: nat) {
    && (forall p: nat :: p in tree || InRecords(records, p) <==> NUM_METAS <= p < next)
    && (forall k, p :: k in records && p in records[k] ==> p !in tree)
    && (forall k, m, p :: k in records && m in records && p in records[k] && p in records[m] ==> k == m)
  }

  lemma SavedIsPartition(ps: Pages, after: map<nat, set<nat>>)
    requires Conserved(ps) && Saved(ps, after)
    ensures SnapshotPartition(ps.tree, after, ps.next)
  {
    forall p: nat
      ensures InRecords(after, p) <==> p in ps.head || p in ps.loose || p in ps.freed || InLive(ps, p)
    {
      if InRecords(after, p) {
        var k :| k in after && p in after[k];
        if ps.last < k < ps.txnid { assert Live(ps, k); }
      }
      if p in ps.freed { assert p in after[ps.txnid]; }
      if InLive(ps, p) {
        var k :| Live(ps, k) && p in ps.records[k];
        assert p in after[k];
      }
    }
    forall p: nat
      ensures p in ps.tree || InRecords(after, p) <==> Accounted(ps, p)
    {
    }
    forall k, p | k in after && p in after[k]
      ensures p !in ps.tree
    {
      if ps.last < k < ps.txnid { assert Live(ps, k); }
    }
    forall k, m, p | k in after && m in after && p in after[k] && p in after[m]
      ensures k == m
    {
      assert ps.last < k < ps.txnid ==> Live(ps, k);
      assert ps.last < m < ps.txnid ==> Live(ps, m);
      assert k <= ps.last ==> p in ps.head || p in ps.loose;
      assert m <= ps.last ==> p in ps.head || p in ps.loose;
    }
  }

  // A transaction starts from a committed snapshot with every record live.
  function Begin(txnid: nat, tree: set<nat>, records: map<nat, set<nat>>, next: nat): (ps: Pages) {
    Pages(txnid, tree, {}, {}, 0, {}, {}, records, next)
  }

  lemma BeginConserves(txnid: nat, tree: set<nat>, records: map<nat, set<nat>>, next: nat)
    requires SnapshotPartition(tree, records, next) && next >= NUM_METAS
    requires forall k :: k in records ==> 1 <= k < txnid
    ensures Conserved(Begin(txnid, tree, records, next))
  {
    var ps := Begin(txnid, tree, records, next);
    assert forall k :: Live(ps, k) <==> k in records;
    forall p: nat
      ensures InLive(ps, p) <==> InRecords(records, p)
    {
      if InRecords(records, p) {
        var k :| k in records && p in records[k];
        assert Live(ps, k);
      }
    }
    forall p: nat
      ensures Accounted(ps, p) <==> p in tree || InRecords(records, p)
    {
    }
  }
}
