// A write transaction's page bookkeeping (client/mdb.c): page allocation with
// reclaiming, freeing, loose pages, overflow runs, and saving the free list.
//
// The page tree itself is abstract: `tree` is the set of pages that the databases,
// the freeDB included, use.  Lists are real: me_pghead and mt_free_pgs are arrays.
module WriteTxn {
  import opened Basics
  import opened IdList
  import opened IdSort
  import opened FreeRuns
  import opened PageState

  // A freeDB record: room for `room` page numbers, `ids` of which are set.
  datatype Record = Record(room: nat, ids: seq<nat>)

  function Elems(s: seq<nat>): (e: set<nat>) {
    set x | x in s
  }

  ghost predicate NoDups(s: seq<nat>) {
    forall i, j :: 0 <= i < j < |s| ==> s[i] != s[j]
  }

  // ------------------------------------------------------------- value view

  datatype View = View(
    txnid: nat, maxpg: nat, tree: set<nat>, dirty: set<nat>,
    hasHead: bool, head: seq<nat>, last: nat, oldest: nat,
    freed: seq<nat>, loose: seq<nat>, db: map<nat, Record>, next: nat)

  ghost function RecordSets(db: map<nat, Record>): (m: map<nat, set<nat>>) {
    map k | k in db :: Elems(db[k].ids)
  }

  ghost function Abs(v: View): (ps: Pages) {
    Pages(v.txnid, v.tree, v.dirty, Elems(v.head), v.last, Elems(v.freed), Elems(v.loose), RecordSets(v.db), v.next)
  }

  ghost predicate Ok(v: View) {
    && StrictlyDescending(v.head) && NoDups(v.freed) && NoDups(v.loose)
    && (v.hasHead <==> v.last > 0) && (!v.hasHead ==> v.head == [])
    && v.last < v.txnid && v.oldest < v.txnid
    && v.next <= v.maxpg <= ID_MAX
    && (forall k :: k in v.db && v.last < k < v.txnid ==> StrictlyDescending(v.db[k].ids))
    && Conserved(Abs(v))
  }

  // A live page number fits an ID.
  lemma LiveIdsBounded(v: View, k: nat)
    requires Ok(v) && k in v.db && v.last < k < v.txnid
    ensures forall i :: 0 <= i < |v.db[k].ids| ==> v.db[k].ids[i] <= ID_MAX
  {
    var ids, ps := v.db[k].ids, Abs(v);
    forall i | 0 <= i < |ids|
      ensures ids[i] <= ID_MAX
    {
      assert Live(ps, k) && ids[i] in ps.records[k];
      assert Accounted(ps, ids[i]);
    }
  }

  // A strictly descending list and one without common entry merge into a strictly descending one.
  lemma MergeDistinct(a: seq<nat>, b: seq<nat>, m: seq<nat>)
    requires StrictlyDescending(a) && (NoDups(b) || StrictlyDescending(b)) && Elems(a) !! Elems(b)
    requires Descending(m) && multiset(m) == multiset(a) + multiset(b)
    ensures StrictlyDescending(m) && Elems(m) == Elems(a) + Elems(b)
  {
    DistinctCounts(a);
    DistinctCounts(b);
    forall x
      ensures x in m <==> x in a || x in b
    {
      assert x in m <==> x in multiset(m);
      assert x in multiset(a) <==> x in a;
      assert x in multiset(b) <==> x in b;
    }
    forall i, j | 0 <= i < j < |m|
      ensures m[i] > m[j]
    {
      var x := m[i];
      assert x in Elems(a) <==> x in a;
      assert multiset(m)[x] == multiset(a)[x] + multiset(b)[x] <= 1;
      CountedTwice(m, i, j);
    }
  }

  lemma CountedTwice(m: seq<nat>, i: nat, j: nat)
    requires i < j < |m|
    ensures m[i] == m[j] ==> multiset(m)[m[i]] >= 2
  {
    assert m == m[..i] + [m[i]] + m[i + 1..j] + [m[j]] + m[j + 1..];
  }

  lemma {:induction false} DistinctCounts(s: seq<nat>)
    requires NoDups(s) || StrictlyDescending(s)
    ensures forall x :: multiset(s)[x] == if x in s then 1 else 0
  {
    if s != [] {
      var init, last := s[..|s| - 1], s[|s| - 1];
      assert s == init + [last];
      DistinctCounts(init);
      assert last !in init;
    }
  }

  // ------------------------------------------------------- transitions kept

  // `v'` has merged the record k into its reclaimed list.
  ghost predicate MergedRecord(v: View, v': View, k: nat) {
    && k in v.db
    && v' == v.(hasHead := true, head := v'.head, last := k)
    && Descending(v'.head) && multiset(v'.head) == multiset(v.head) + multiset(v.db[k].ids)
  }

  lemma FetchOk(v: View, v': View, k: nat)
    requires Ok(v) && IsNextRecord(Abs(v), k) && MergedRecord(v, v', k)
    ensures Ok(v') && Abs(v') == Fetch(Abs(v), k)
  {
    assert Live(Abs(v), k);
    assert Elems(v.head) !! Elems(v.db[k].ids);
    MergeDistinct(v.head, v.db[k].ids, v'.head);
    FetchConserves(Abs(v), k);
    assert Abs(v') == Fetch(Abs(v), k);
  }

  lemma TakeLooseOk(v: View)
    requires Ok(v) && v.loose != []
    ensures var v' := v.(loose := v.loose[1..], tree := v.tree + {v.loose[0]}, dirty := v.dirty + {v.loose[0]});
            Ok(v') && Abs(v') == TakeLoose(Abs(v), v.loose[0])
  {
    var v' := v.(loose := v.loose[1..], tree := v.tree + {v.loose[0]}, dirty := v.dirty + {v.loose[0]});
    assert v.loose == [v.loose[0]] + v.loose[1..];
    assert Elems(v'.loose) == Elems(v.loose) - {v.loose[0]};
    TakeLooseConserves(Abs(v), v.loose[0]);
    assert Abs(v') == TakeLoose(Abs(v), v.loose[0]);
  }

  lemma TakeHeadOk(v: View, i: nat, num: nat)
    requires Ok(v) && RunAt(v.head, i, num) && v.hasHead
    ensures var run := RunOf(v.head[i - 1], num);
            var v' := v.(head := v.head[..i - num] + v.head[i..], tree := v.tree + run, dirty := v.dirty + run);
            Ok(v') && Abs(v') == TakeHead(Abs(v), run) && run <= Abs(v).head && Elems(v'.head) + run == Elems(v.head)
  {
    var run := RunOf(v.head[i - 1], num);
    var v' := v.(head := v.head[..i - num] + v.head[i..], tree := v.tree + run, dirty := v.dirty + run);
    RemoveRunKeepsOrder(v.head, i, num);
    RunIsRun(v.head, i, num);
    assert run <= Elems(v.head);
    assert Elems(v'.head) == Elems(v.head) - run;
    TakeHeadConserves(Abs(v), run);
    assert Abs(v') == TakeHead(Abs(v), run);
  }

  lemma TakeNewOk(v: View, num: nat)
    requires Ok(v) && v.next + num < v.maxpg
    ensures var run := RunOf(v.next, num);
            var v' := v.(next := v.next + num, tree := v.tree + run, dirty := v.dirty + run);
            Ok(v') && Abs(v') == TakeNew(Abs(v), num)
  {
    TakeNewConserves(Abs(v), num);
  }

  lemma FreeOk(v: View, add: seq<nat>)
    requires Ok(v) && NoDups(add) && Elems(add) <= v.tree
    ensures var v' := v.(freed := v.freed + add, tree := v.tree - Elems(add));
            Ok(v') && Abs(v') == FreePages(Abs(v), Elems(add))
  {
    var v' := v.(freed := v.freed + add, tree := v.tree - Elems(add));
    assert Elems(v'.freed) == Elems(v.freed) + Elems(add);
    assert forall i :: 0 <= i < |add| ==> add[i] in Elems(add);
    assert forall i :: 0 <= i < |v.freed| ==> v.freed[i] in Elems(v.freed);
    FreePagesConserves(Abs(v), Elems(add));
    assert Abs(v') == FreePages(Abs(v), Elems(add));
  }

  lemma LoosenOk(v: View, p: nat)
    requires Ok(v) && p in v.tree
    ensures var v' := v.(loose := [p] + v.loose, tree := v.tree - {p});
            Ok(v') && Abs(v') == Loosen(Abs(v), p)
  {
    var v' := v.(loose := [p] + v.loose, tree := v.tree - {p});
    assert Elems(v'.loose) == Elems(v.loose) + {p};
    assert p !in Elems(v.loose);
    LoosenConserves(Abs(v), p);
    assert Abs(v') == Loosen(Abs(v), p);
  }

  lemma ReleaseOk(v: View, k: nat, pg: nat, ov: nat)
    requires Ok(v) && v.hasHead && RunOf(pg, ov) <= v.tree && k <= |v.head|
    requires StrictlyDescending(v.head[..k] + Run(pg, ov) + v.head[k..])
    ensures var run := RunOf(pg, ov);
            var v' := v.(head := v.head[..k] + Run(pg, ov) + v.head[k..], tree := v.tree - run, dirty := v.dirty - run);
            Ok(v') && Abs(v') == Release(Abs(v), run)
  {
    var run := RunOf(pg, ov);
    var v' := v.(head := v.head[..k] + Run(pg, ov) + v.head[k..], tree := v.tree - run, dirty := v.dirty - run);
    RunElems(pg, ov);
    assert v.head == v.head[..k] + v.head[k..];
    assert Elems(v'.head) == Elems(v.head) + run;
    ReleaseConserves(Abs(v), run);
    assert Abs(v') == Release(Abs(v), run);
  }

  lemma RunElems(pg: nat, ov: nat)
    ensures Elems(Run(pg, ov)) == RunOf(pg, ov) && NoDups(Run(pg, ov))
  {
    forall q | q in RunOf(pg, ov)
      ensures q in Run(pg, ov)
    {
      assert Run(pg, ov)[pg + ov - 1 - q] == q;
    }
  }

  lemma LooseToFreedOk(v: View)
    requires Ok(v)
    ensures var v' := v.(loose := [], freed := v.freed + v.loose, dirty := v.dirty - Elems(v.loose));
            Ok(v') && Abs(v') == LooseToFreed(Abs(v))
  {
    var v' := v.(loose := [], freed := v.freed + v.loose, dirty := v.dirty - Elems(v.loose));
    assert Elems(v'.freed) == Elems(v.freed) + Elems(v.loose) && Elems([]) == {};
    assert forall i :: 0 <= i < |v.loose| ==> v.loose[i] in Elems(v.loose);
    assert forall i :: 0 <= i < |v.freed| ==> v.freed[i] in Elems(v.freed);
    LooseToFreedConserves(Abs(v));
    assert Abs(v') == LooseToFreed(Abs(v));
  }

  // Fetching any number of records below a limit, in key order.
  ghost predicate Fetched(a: Pages, b: Pages, limit: nat) {
    && b == a.(head := b.head, last := b.last)
    && (b.last == a.last || (Live(a, b.last) && b.last < limit))
    && a.last <= b.last
    && (forall p :: p in b.head <==> p in a.head || exists k: nat :: Live(a, k) && k <= b.last && p in a.records[k])
  }

  lemma FetchedNone(a: Pages, limit: nat)
    ensures Fetched(a, a, limit)
  {
  }

  lemma FetchedMore(a: Pages, b: Pages, k: nat, limit: nat)
    requires Fetched(a, b, limit) && IsNextRecord(b, k) && k < limit
    ensures Fetched(a, Fetch(b, k), limit)
  {
    var c := Fetch(b, k);
    assert Live(a, k);
    forall p
      ensures p in c.head <==> p in a.head || exists m: nat :: Live(a, m) && m <= k && p in a.records[m]
    {
      if exists m: nat :: Live(a, m) && m <= k && p in a.records[m] {
        var m: nat :| Live(a, m) && m <= k && p in a.records[m];
        if m > b.last { assert Live(b, m); }
      }
    }
  }

  // -------------------------------------------------------- the transaction

  datatype AllocResult = Got(pg: nat) | MapFull | TxnFull

  // mdb_midl_need: room for `num` more entries, growing the list by a quarter.
  method Need(ids: array<nat>, num: nat) returns (r: array<nat>)
    requires ListAt(ids, 0)
    ensures r == ids || fresh(r)
    ensures ListAt(r, 0) && Ids(r) == Ids(ids) && r[0] + num < r.Length
  {
    var n := ids[0] + num;
    if n > ids.Length - 1 {
      var size := n + n / 4 + (256 + 2);
      size := size - size % 256;
      r := new nat[size - 1];
      r[0] := ids[0];
      for k := 1 to ids[0] + 1
        invariant r[0] == ids[0]
        invariant forall x :: 1 <= x < k ==> r[x] == ids[x]
      {
        r[k] := ids[k];
      }
      assert Ids(r) == Ids(ids);
    } else {
      r := ids;
    }
  }

  // mdb_midl_grow
  method Grow(ids: array<nat>, num: nat) returns (r: array<nat>)
    requires ListAt(ids, 0)
    ensures fresh(r) && r.Length == ids.Length + num && ListAt(r, 0) && Ids(r) == Ids(ids)
  {
    r := new nat[ids.Length + num];
    r[0] := ids[0];
    for k := 1 to ids[0] + 1
      invariant r[0] == ids[0]
      invariant forall x :: 1 <= x < k ==> r[x] == ids[x]
    {
      r[k] := ids[k];
    }
    assert Ids(r) == Ids(ids);
  }

  // The list, created if there is none, with room for `num` more.
  method Room(ids: array?<nat>, num: nat) returns (r: array<nat>)
    requires ids != null ==> ListAt(ids, 0)
    ensures r == ids || fresh(r)
    ensures ListAt(r, 0) && r[0] + num < r.Length
    ensures Ids(r) == if ids == null then [] else Ids(ids)
  {
    if ids == null {
      r := new nat[num + 1];
      r[0] := 0;
    } else {
      r := Need(ids, num);
    }
  }

  // A list read from a freeDB record.
  method ToList(s: seq<nat>) returns (r: array<nat>)
    ensures fresh(r) && ListAt(r, 0) && Ids(r) == s
  {
    r := new nat[|s| + 1];
    r[0] := |s|;
    for k := 0 to |s|
      invariant r[0] == |s|
      invariant forall x :: 1 <= x <= k ==> r[x] == s[x - 1]
    {
      r[k + 1] := s[k];
    }
    assert Ids(r) == s;
  }

  class Txn {
    const txnid: nat
    const maxpg: nat                // me_maxpg
    var tree: set<nat>
    var dirty: set<nat>             // page numbers in the dirty list
    var dirtyRoom: nat              // mt_dirty_room
    var pghead: array?<nat>         // me_pghead
    var pglast: nat                 // me_pglast
    var pgoldest: nat               // me_pgoldest
    var freePgs: array<nat>         // mt_free_pgs
    var loose: seq<nat>             // mt_loose_pgs
    var freeDb: map<nat, Record>
    var nextPgno: nat               // mt_next_pgno

    ghost predicate Shape()
      reads this, pghead, freePgs
    {
      && ListAt(freePgs, 0)
      && (pghead != null ==> pghead != freePgs && ListAt(pghead, 0))
    }

    ghost function V(): (v: View)
      reads this, pghead, freePgs
      requires Shape()
    {
      View(txnid, maxpg, tree, dirty, pghead != null, if pghead == null then [] else Ids(pghead),
           pglast, pgoldest, Ids(freePgs), loose, freeDb, nextPgno)
    }

    ghost predicate Valid()
      reads this, pghead, freePgs
    {
      Shape() && Ok(V())
    }

    /** mdb_cursor_get: the first record with a key of at least `from`. */
    method SeekRecord(from: nat) returns (found: bool, key: nat)
      ensures found ==> key in freeDb && from <= key && forall k :: k in freeDb && from <= k ==> key <= k
      ensures !found ==> forall k :: k in freeDb ==> k < from
    {
      found, key := false, 0;
      var todo := freeDb.Keys;
      while todo != {}
        invariant todo <= freeDb.Keys
        invariant found ==> key in freeDb && from <= key
        invariant forall k :: k in freeDb && k !in todo && from <= k ==> found && key <= k
        decreases |todo|
      {
        var k :| k in todo;
        todo := todo - {k};
        if from <= k && (!found || k < key) {
          found, key := true, k;
        }
      }
    }

    // Merge the record `key` into me_pghead, creating the list if need be.
    method MergeRecord(key: nat)
      requires Shape() && key in freeDb && Descending(freeDb[key].ids)
      requires pghead != null ==> Descending(Ids(pghead))
      requires forall i :: 0 <= i < |freeDb[key].ids| ==> freeDb[key].ids[i] <= ID_MAX
      modifies this`pghead, this`pglast, pghead
      ensures Shape() && (pghead == old(pghead) || fresh(pghead))
      ensures MergedRecord(old(V()), V(), key)
    {
      ghost var head := V().head;
      var idl := ToList(freeDb[key].ids);
      var list := Room(pghead, idl[0]);
      pghead := list;
      pglast := key;
      assert Ids(pghead) == head;
      XMerge(pghead, idl, 0);
    }

    // The record `last` may be too recent: look at the reader table, once.
    method CheckOldest(last: nat, oldest0: nat, foundOld0: bool, scanned: nat) returns (oldest: nat, foundOld: bool)
      requires Valid() && scanned < txnid && oldest0 == pgoldest && (foundOld0 ==> pgoldest == scanned)
      modifies this`pgoldest
      ensures Valid() && V() == old(V()).(oldest := pgoldest) && Abs(V()) == Abs(old(V()))
      ensures oldest == pgoldest && (pgoldest == old(pgoldest) || pgoldest == scanned)
      ensures foundOld0 ==> foundOld
      ensures foundOld ==> pgoldest == scanned
      ensures !foundOld ==> pgoldest == old(pgoldest)
      ensures oldest <= last ==> foundOld
    {
      oldest, foundOld := oldest0, foundOld0;
      if oldest <= last && !foundOld {
        OldestOk(V(), scanned);
        oldest := scanned;
        pgoldest := oldest;
        foundOld := true;
      }
    }

    // One more freeDB record joins me_pghead, unless it is too recent or there is none.
    method FetchNext(oldest0: nat, foundOld0: bool, scanned: nat) returns (fetched: bool, oldest: nat, foundOld: bool)
      requires Valid() && scanned < txnid && oldest0 == pgoldest && (foundOld0 ==> pgoldest == scanned)
      modifies this`pghead, this`pglast, this`pgoldest, pghead
      ensures Valid() && (pghead == old(pghead) || fresh(pghead))
      ensures V() == old(V()).(hasHead := V().hasHead, head := V().head, last := V().last, oldest := V().oldest)
      ensures oldest == pgoldest && (foundOld0 ==> foundOld)
      ensures foundOld ==> pgoldest == scanned
      ensures !foundOld ==> pgoldest == old(pgoldest)
      ensures !fetched ==> V() == old(V()).(oldest := pgoldest) && Abs(V()) == Abs(old(V()))
      ensures !fetched ==> NothingBelow(freeDb, pglast, scanned)
      ensures fetched ==>
                && old(pglast) < pglast < txnid && pglast < pgoldest
                && IsNextRecord(Abs(old(V())), pglast) && Abs(V()) == Fetch(Abs(old(V())), pglast)
    {
      hide Ok, StrictlyDescending, Descending, Abs, Fetch, MergedRecord, IsNextRecord;
      ghost var v0 := V();
      var last := pglast + 1;
      fetched := false;
      oldest, foundOld := CheckOldest(last, oldest0, foundOld0, scanned);
      if oldest <= last { return; }
      var found, key := SeekRecord(last);
      if !found { return; }
      last := key;
      oldest, foundOld := CheckOldest(last, oldest, foundOld, scanned);
      if oldest <= last { return; }
      ghost var v := V();
      OkShape(v);
      NextRecordFound(v, key);
      MergeRecord(key);
      FetchOk(v, V(), key);
      MergedFields(v, V(), key);
      fetched := true;
    }

    // The search of mdb_page_alloc: a run in me_pghead, reclaiming freeDB records
    // below the low-water mark while none is found.  `scanned` is what
    // mdb_find_oldest would return; it is consulted at most once.  It gives up when no
    // such record is left, or when 60 records for each page asked for did not do; and
    // without the last record fetched there was no run.
    method Reclaim(num: nat, scanned: nat) returns (i: nat)
      requires Valid() && num > 0 && scanned < txnid
      modifies this`pghead, this`pglast, this`pgoldest, pghead
      ensures Valid() && (pghead == old(pghead) || fresh(pghead))
      ensures V() == old(V()).(hasHead := V().hasHead, head := V().head, last := V().last, oldest := V().oldest)
      ensures pgoldest == old(pgoldest) || pgoldest == scanned
      ensures Fetched(Abs(old(V())), Abs(V()), Max(scanned, old(pgoldest)))
      ensures i > 0 ==> pghead != null && RunAt(Ids(pghead), i, num)
      ensures i > 0 ==> forall k :: i < k <= |V().head| ==> !RunAt(V().head, k, num)
      ensures i == 0 ==> !HasRun(V().head, num) && GaveUp(freeDb, old(pglast), pglast, scanned, num)
      ensures LastNeeded(freeDb, V().head, old(pglast), pglast, num)
      ensures HasRun(old(V()).head, num) ==> V() == old(V())
    {
      hide Ok, Fetched, StrictlyDescending, Abs, Fetch, RunAt, HasRun, IsNextRecord, NothingBelow, LastNeeded, Consumed;
      ghost var v0, limit := V(), Max(scanned, pgoldest);
      FetchedNone(Abs(v0), limit);
      NoneNeeded(v0, num);
      var retry: int := num * 60;
      var foundOld, oldest := false, pgoldest;
      while true
        invariant Shape() && Ok(V()) && (pghead == old(pghead) || fresh(pghead))
        invariant V() == v0.(hasHead := V().hasHead, head := V().head, last := V().last, oldest := V().oldest)
        invariant Fetched(Abs(v0), Abs(V()), limit)
        invariant oldest == pgoldest && (foundOld ==> pgoldest == scanned) && (!foundOld ==> pgoldest == v0.oldest)
        invariant num * 60 - retry <= |Consumed(freeDb, v0.last, pglast)|
        invariant LastNeeded(freeDb, V().head, v0.last, pglast, num) && (HasRun(v0.head, num) ==> V() == v0)
        decreases txnid - pglast
      {
        var mopLen := if pghead == null then 0 else pghead[0];
        OkShape(V());
        if mopLen > num - 1 {
          i := FindRun(pghead, num);
          if i != 0 { return; }
          retry := retry - 1;
          if retry < 0 { break; }
        } else {
          ShortHasNoRun(V().head, num);
        }
        ghost var v := V();
        var fetched;
        fetched, oldest, foundOld := FetchNext(oldest, foundOld, scanned);
        if !fetched { break; }
        FetchedMore(Abs(v0), Abs(v), pglast, limit);
        FetchNeeded(v, V(), v0.last, num);
      }
      i := 0;
    }

    // Hand out the run found at place i, or new pages when i is 0.
    method TakePages(i: nat, num: nat) returns (r: AllocResult)
      requires Valid() && num > 0 && dirtyRoom > 0
      requires i > 0 ==> pghead != null && RunAt(Ids(pghead), i, num)
      modifies this`tree, this`dirty, this`dirtyRoom, this`nextPgno, pghead
      ensures Valid() && !r.TxnFull?
      ensures V() == old(V()).(tree := tree, dirty := dirty, head := V().head, next := nextPgno)
      ensures r.MapFull? ==> V() == old(V()) && dirtyRoom == old(dirtyRoom)
      ensures r.MapFull? <==> i == 0 && old(nextPgno) + num >= maxpg
      ensures r.Got? ==> TakenFrom(Abs(old(V())), Abs(V()), r.pg, num) && dirtyRoom == old(dirtyRoom) - 1
      ensures i > 0 ==> nextPgno == old(nextPgno) && r == Got(old(V()).head[i - 1])
      ensures i > 0 ==> Elems(V().head) + RunOf(r.pg, num) == Elems(old(V()).head)
      ensures i == 0 ==> V().head == old(V()).head && (r.Got? ==> r.pg == old(nextPgno) && nextPgno == r.pg + num)
    {
      hide Ok, StrictlyDescending, Descending, Abs, TakeHead, TakeNew, RunAt, Elems;
      ghost var v := V();
      var pg: nat;
      if i == 0 {
        pg := nextPgno;
        if pg + num >= maxpg {
          return MapFull;
        }
        TakeNewOk(v, num);
        nextPgno := pg + num;
      } else {
        RunBounds(v.head, i, num);
        TakeHeadOk(v, i, num);
        pg := pghead[i];
        RemoveRun(pghead, i, num);
      }
      tree := tree + RunOf(pg, num);
      dirty := dirty + RunOf(pg, num);
      dirtyRoom := dirtyRoom - 1;
      r := Got(pg);
      AbsFields(v);
    }

    /** mdb_page_alloc.  On success the pages come from the loose list, from the
        reclaimed list after consuming some records below the low-water mark, or
        from the end of the file; every page stays accounted for.  The file grows, or
        the map is full, only after the search gave up; a run that is there is taken
        without consuming a record, and of several the lowest. */
    method PageAlloc(num: nat, scanned: nat) returns (r: AllocResult)
      requires Valid() && num > 0 && scanned < txnid
      modifies this, pghead
      ensures Valid() && (pghead == old(pghead) || fresh(pghead)) && freePgs == old(freePgs)
      ensures V() == old(V()).(tree := tree, dirty := dirty, hasHead := V().hasHead, head := V().head,
                               last := pglast, oldest := pgoldest, loose := loose, next := nextPgno)
      ensures pgoldest == old(pgoldest) || pgoldest == scanned
      ensures loose == old(loose) || (old(loose) != [] && loose == old(loose)[1..])
      ensures Allocated(Abs(old(V())), Abs(V()), num, r, Max(scanned, old(pgoldest)))
      ensures r.TxnFull? <==> old(dirtyRoom) == 0 && !(num == 1 && old(loose) != [])
      ensures num == 1 && old(loose) != [] ==> r == Got(old(loose)[0]) && Abs(V()) == TakeLoose(Abs(old(V())), r.pg)
      ensures r.MapFull? || nextPgno != old(nextPgno) ==>
                !HasRun(V().head, num) && GaveUp(freeDb, old(pglast), pglast, scanned, num)
      ensures HasRun(old(V()).head, num) ==> pglast == old(pglast)
      ensures r.Got? && nextPgno == old(nextPgno) && !(num == 1 && old(loose) != []) ==>
                Lowest(Elems(V().head) + RunOf(r.pg, num), r.pg, num)
      ensures r.MapFull? ==> nextPgno + num >= maxpg
      ensures dirtyRoom == old(dirtyRoom) - if r.Got? && !(num == 1 && old(loose) != []) then 1 else 0
    {
      hide Ok, Fetched, StrictlyDescending, Descending, Abs, TakeLoose, TakenFrom, GaveUp, HasRun, Lowest, LastNeeded, Elems;
      ghost var v0 := V();
      if num == 1 && loose != [] {
        TakeLooseOk(v0);
        LooseIsLoose(v0);
        var p := loose[0];
        loose := loose[1..];
        tree := tree + {p};
        dirty := dirty + {p};
        return Got(p);
      }
      if dirtyRoom == 0 {
        return TxnFull;
      }
      var i := Reclaim(num, scanned);
      OkShape(V());
      if i > 0 {
        LowestRun(V().head, i, num);
      }
      r := TakePages(i, num);
    }

    // mdb_midl_append_range on mt_free_pgs (mdb_midl_append when n is 1).
    method AppendFreed(pg: nat, n: nat)
      requires Shape()
      modifies this`freePgs, freePgs
      ensures Shape() && (freePgs == old(freePgs) || fresh(freePgs))
      ensures V() == old(V()).(freed := old(V()).freed + Run(pg, n))
    {
      if freePgs[0] + n > freePgs.Length - 1 {
        // n | IDL_UM_MAX
        freePgs := Grow(freePgs, n / (IDL_UM_MAX + 1) * (IDL_UM_MAX + 1) + IDL_UM_MAX);
      }
      AppendRange(freePgs, pg, n);
    }

    /** mdb_page_loose: a page dirtied by this transaction becomes loose, unless the
        freeDB owns it; any other page is freed for later transactions. */
    method PageLoose(p: nat, ofFreeDb: bool)
      requires Valid() && p in tree
      modifies this`tree, this`loose, this`freePgs, freePgs
      ensures Valid() && (freePgs == old(freePgs) || fresh(freePgs))
      ensures V() == old(V()).(tree := tree, loose := loose, freed := V().freed) && old(V()).freed <= V().freed
      ensures Abs(V()) == if p in dirty && !ofFreeDb then Loosen(Abs(old(V())), p) else FreePages(Abs(old(V())), {p})
      ensures ofFreeDb ==> loose == old(loose)
    {
      hide Ok, Abs;
      if p in dirty && !ofFreeDb {
        LoosenOk(V(), p);
        loose := [p] + loose;
        tree := tree - {p};
      } else {
        RunElems(p, 1);
        OneRun(p);
        FreeOk(V(), Run(p, 1));
        AppendFreed(p, 1);
        tree := tree - {p};
      }
    }

    /** mdb_page_touch: copy-on-write of a page that is not dirty yet. */
    method PageTouch(p: nat, scanned: nat) returns (r: AllocResult)
      requires Valid() && p in tree && scanned < txnid
      modifies this, pghead, freePgs
      ensures Valid() && (pghead == old(pghead) || fresh(pghead)) && (freePgs == old(freePgs) || fresh(freePgs))
      ensures p in old(dirty) ==> r == Got(p) && V() == old(V())
      ensures p !in old(dirty) && r.Got? ==>
                exists mid :: Allocated(Abs(old(V())), mid, 1, r, Max(scanned, old(pgoldest))) && Abs(V()) == FreePages(mid, {p})
      ensures !r.Got? ==> Allocated(Abs(old(V())), Abs(V()), 1, r, Max(scanned, old(pgoldest)))
      ensures p !in old(dirty) && r.Got? ==> r.pg != p
      ensures r.MapFull? || nextPgno != old(nextPgno) ==> GaveUp(freeDb, old(pglast), pglast, scanned, 1)
      ensures r.MapFull? ==> nextPgno + 1 >= maxpg
      ensures r.TxnFull? ==> dirtyRoom == 0
      ensures freeDb == old(freeDb) && old(V()).freed <= V().freed
      ensures old(pglast) <= pglast && (pglast == old(pglast) || pglast in freeDb)
      ensures loose == old(loose) || (old(loose) != [] && loose == old(loose)[1..])
    {
      hide Ok, Abs, Allocated, FreePages, GaveUp;
      if p in dirty {
        return Got(p);
      }
      ghost var v := V();
      r := PageAlloc(1, scanned);
      AllocatedKeeps(v, V(), 1, r, Max(scanned, v.oldest));
      if r.Got? {
        PageLoose(p, true);
      }
    }

    // A run this transaction wrote goes straight back to the reclaimed pages.
    method ReleaseRun(pg: nat, ov: nat)
      requires Valid() && pghead != null && RunOf(pg, ov) <= tree && RunOf(pg, ov) <= dirty
      modifies this, pghead
      ensures Valid() && freePgs == old(freePgs) && pghead != null && (pghead == old(pghead) || fresh(pghead))
      ensures V() == old(V()).(tree := tree, dirty := dirty, head := V().head)
      ensures Abs(V()) == Release(Abs(old(V())), RunOf(pg, ov)) && dirtyRoom == old(dirtyRoom) + 1
    {
      hide Ok, Abs, StrictlyDescending;
      ghost var v := V();
      pghead := Need(pghead, ov);
      OkShape(v);
      RunApart(v, pg, ov);
      ghost var k := InsertRun(pghead, pg, ov);
      ReleaseOk(v, k, pg, ov);
      tree := tree - RunOf(pg, ov);
      dirty := dirty - RunOf(pg, ov);
      dirtyRoom := dirtyRoom + 1;
    }

    /** mdb_ovpage_free: a dirty overflow run goes back to me_pghead if that exists,
        any other run is freed for later transactions. */
    method OvpageFree(pg: nat, ov: nat)
      requires Valid() && RunOf(pg, ov) <= tree
      requires RunOf(pg, ov) <= dirty || RunOf(pg, ov) !! dirty
      modifies this, pghead, freePgs
      ensures Valid() && (pghead == old(pghead) || fresh(pghead)) && (freePgs == old(freePgs) || fresh(freePgs))
      ensures V() == old(V()).(tree := tree, dirty := dirty, head := V().head, freed := V().freed) && old(V()).freed <= V().freed
      ensures Abs(V()) == if old(pghead) != null && RunOf(pg, ov) <= old(dirty) then Release(Abs(old(V())), RunOf(pg, ov))
                          else FreePages(Abs(old(V())), RunOf(pg, ov))
      ensures old(pghead) == null ==> pghead == null
      ensures dirtyRoom == old(dirtyRoom) + if old(pghead) != null && RunOf(pg, ov) <= old(dirty) then 1 else 0
    {
      hide Ok, Abs, StrictlyDescending;
      ghost var v := V();
      if pghead != null && RunOf(pg, ov) <= dirty {
        ReleaseRun(pg, ov);
      } else {
        RunElems(pg, ov);
        FreeOk(v, Run(pg, ov));
        AppendFreed(pg, ov);
        tree := tree - RunOf(pg, ov);
      }
    }
  }

  // An allocation takes nothing out of the tree and never hands out a page of it.
  lemma AllocatedKeeps(v: View, v': View, num: nat, r: AllocResult, limit: nat)
    requires Ok(v) && num > 0 && Allocated(Abs(v), Abs(v'), num, r, limit)
    ensures v.tree <= v'.tree && v.last <= v'.last && (v'.last == v.last || v'.last in v.db)
    ensures r.Got? ==> RunOf(r.pg, num) !! v.tree && RunOf(r.pg, num) <= v'.tree
  {
    var a, b := Abs(v), Abs(v');
    if r.Got? && !(num == 1 && r.pg in a.loose && b == TakeLoose(a, r.pg)) {
      var mid :| Fetched(a, mid, limit) && TakenFrom(mid, b, r.pg, num);
      forall q | q in RunOf(r.pg, num)
        ensures q !in v.tree
      {
        assert q in v.tree ==> Accounted(a, q);
      }
    }
  }

  lemma OneRun(p: nat)
    ensures Elems(Run(p, 1)) == {p}
  {
    assert Run(p, 1) == [p];
  }

  // Pages of the tree are not in the reclaimed list.
  lemma RunApart(v: View, pg: nat, ov: nat)
    requires Ok(v) && RunOf(pg, ov) <= v.tree
    ensures forall q :: pg <= q < pg + ov ==> q !in v.head
  {
    forall q | pg <= q < pg + ov
      ensures q !in v.head
    {
      assert q in v.tree;
      assert q in v.head ==> q in Elems(v.head);
    }
  }

  lemma RunBounds(s: seq<nat>, i: nat, num: nat)
    requires RunAt(s, i, num)
    ensures 0 < num <= i <= |s|
  {
  }

  lemma AbsFields(v: View)
    ensures Abs(v).next == v.next
  {
  }

  // The outcome of an allocation of `num` pages, on page sets.
  ghost predicate Allocated(a: Pages, b: Pages, num: nat, r: AllocResult, limit: nat) {
    match r
    case TxnFull => b == a
    case MapFull => Fetched(a, b, limit)
    case Got(pg) =>
      || (num == 1 && pg in a.loose && b == TakeLoose(a, pg))
      || exists mid :: Fetched(a, mid, limit) && TakenFrom(mid, b, pg, num)
  }

  ghost predicate TakenFrom(mid: Pages, b: Pages, pg: nat, num: nat) {
    || (RunOf(pg, num) <= mid.head && b == TakeHead(mid, RunOf(pg, num)))
    || (pg == mid.next && b == TakeNew(mid, num))
  }

  // No record after `last` is older than `limit`.
  ghost predicate NothingBelow(db: map<nat, Record>, last: nat, limit: nat) {
    forall k :: k in db && last < k ==> limit <= k
  }

  // The records with keys after `last`, up to `upto`.
  ghost function Consumed(db: map<nat, Record>, last: nat, upto: nat): set<nat> {
    set k | k in db && last < k <= upto
  }

  // No older record is left, or enough of them were consumed in vain.
  ghost predicate GaveUp(db: map<nat, Record>, last: nat, upto: nat, limit: nat, num: nat) {
    NothingBelow(db, upto, limit) || |Consumed(db, last, upto)| >= num * 60
  }

  ghost predicate RunIn(pages: set<nat>, num: nat) {
    exists p: nat :: RunOf(p, num) <= pages
  }

  // No run starts below page p.
  ghost predicate Lowest(pages: set<nat>, p: nat, num: nat) {
    forall q: nat :: q < p ==> !(RunOf(q, num) <= pages)
  }

  // Without the last of the records fetched since `last` there was no run.
  ghost predicate LastNeeded(db: map<nat, Record>, head: seq<nat>, last: nat, upto: nat, num: nat) {
    upto > last ==> upto in db && !RunIn(Elems(head) - Elems(db[upto].ids), num)
  }

  lemma NoneNeeded(v: View, num: nat)
    ensures LastNeeded(v.db, v.head, v.last, v.last, num) && Consumed(v.db, v.last, v.last) == {}
  {
  }

  lemma RunInList(s: seq<nat>, num: nat)
    requires RunIn(Elems(s), num)
    ensures HasRun(s, num)
  {
    var p: nat :| RunOf(p, num) <= Elems(s);
    forall q | p <= q < p + num
      ensures q in s
    {
      assert q in RunOf(p, num);
    }
    assert ContainsRun(s, p, num);
  }

  lemma FetchNeeded(v: View, v': View, last: nat, num: nat)
    requires Ok(v) && IsNextRecord(Abs(v), v'.last) && Abs(v') == Fetch(Abs(v), v'.last) && v'.db == v.db
    requires last <= v.last && !HasRun(v.head, num)
    ensures LastNeeded(v'.db, v'.head, last, v'.last, num)
    ensures |Consumed(v.db, last, v'.last)| > |Consumed(v.db, last, v.last)|
  {
    hide HasRun, RunIn, StrictlyDescending;
    var k := v'.last;
    assert Live(Abs(v), k);
    assert Elems(v.head) !! Elems(v.db[k].ids);
    assert Abs(v').head == Elems(v.head) + Elems(v.db[k].ids);
    assert Elems(v'.head) - Elems(v.db[k].ids) == Elems(v.head);
    if RunIn(Elems(v.head), num) {
      RunInList(v.head, num);
    }
    var a, b := Consumed(v.db, last, v.last), Consumed(v.db, last, k);
    assert b == a + (b - a) && k in b - a;
  }

  lemma LowestRun(s: seq<nat>, i: nat, num: nat)
    requires StrictlyDescending(s) && RunAt(s, i, num) && forall k :: i < k <= |s| ==> !RunAt(s, k, num)
    ensures Lowest(Elems(s), s[i - 1], num)
  {
    hide RunAt;
    RunBounds(s, i, num);
    forall q: nat | q < s[i - 1]
      ensures !(RunOf(q, num) <= Elems(s))
    {
      if RunOf(q, num) <= Elems(s) {
        forall x | q <= x < q + num
          ensures x in s
        {
          assert x in RunOf(q, num);
        }
        var hi := RunIsContiguous(s, q, num);
        LargerFirst(s, i - 1, hi - 1);
        RunByEnds(s, hi, num);
      }
    }
  }

  lemma ShortHasNoRun(s: seq<nat>, num: nat)
    requires StrictlyDescending(s) && |s| < num
    ensures !HasRun(s, num)
  {
    NoRun(s, num);
  }

  lemma LooseIsLoose(v: View)
    requires v.loose != []
    ensures v.loose[0] in Abs(v).loose
  {
  }

  lemma OldestOk(v: View, o: nat)
    requires Ok(v) && o < v.txnid
    ensures Ok(v.(oldest := o)) && Abs(v.(oldest := o)) == Abs(v)
  {
  }

  lemma OkShape(v: View)
    requires Ok(v)
    ensures StrictlyDescending(v.head) && Descending(v.head) && v.last < v.txnid && v.oldest < v.txnid
  {
  }

  // The record found by the cursor is the next live one.
  lemma NextRecordFound(v: View, key: nat)
    requires Ok(v) && key in v.db && v.last < key < v.oldest
    requires forall k :: k in v.db && v.last + 1 <= k ==> key <= k
    ensures IsNextRecord(Abs(v), key) && Descending(v.db[key].ids)
    ensures forall i :: 0 <= i < |v.db[key].ids| ==> v.db[key].ids[i] <= ID_MAX
  {
    LiveIdsBounded(v, key);
  }

  lemma MergedFields(v: View, v': View, k: nat)
    requires MergedRecord(v, v', k)
    ensures v' == v.(hasHead := true, head := v'.head, last := k)
  {
  }
}
