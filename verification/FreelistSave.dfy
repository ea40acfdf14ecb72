// mdb_freelist_save (client/mdb.c:3419-3637).
//
// Every write to the freeDB may itself allocate, touch and free pages.  What a
// write does is given by a script of page operations, so that the result holds
// whatever the freeDB's tree does; a save that the script does not let finish
// ends in Failed, as does one that runs out of pages.  A script whose last entries
// are empty for long enough always lets it finish.
module FreelistSave {
  import opened Basics
  import opened IdList
  import opened IdSort
  import opened FreeRuns
  import opened PageState
  import opened WriteTxn

  // A page operation on behalf of the freeDB; `scanned` answers mdb_find_oldest.
  datatype Op =
    | TouchOp(p: nat, scanned: nat)
    | NewOp(num: nat, scanned: nat)
    | FreeOp(p: nat)
    | FreeRunOp(pg: nat, ov: nat)

  // Undefined: a list of page numbers too long for mdb_midl_sort.
  datatype SaveResult = Done | Failed | Undefined

  function PagesOf(op: Op): nat {
    match op
    case TouchOp(_, _) => 1
    case NewOp(num, _) => num
    case FreeOp(_) => 0
    case FreeRunOp(_, _) => 0
  }

  // No slot left in the dirty list, or some operation of the script asks for all the pages left.
  ghost predicate Starved(room: nat, left: int, script: seq<seq<Op>>) {
    room == 0 || exists ops, op :: ops in script && op in ops && left <= PagesOf(op)
  }

  ghost predicate Suffix(rest: seq<seq<Op>>, script: seq<seq<Op>>) {
    |rest| <= |script| && rest == script[|script| - |rest|..]
  }

  lemma SuffixTrans(a: seq<seq<Op>>, b: seq<seq<Op>>, c: seq<seq<Op>>)
    requires Suffix(a, b) && Suffix(b, c)
    ensures Suffix(a, c) && |a| <= |b|
  {
  }

  lemma StarvedMore(room: nat, left: int, rest: seq<seq<Op>>, script: seq<seq<Op>>)
    requires Starved(room, left, rest) && Suffix(rest, script)
    ensures Starved(room, left, script)
  {
    if room != 0 {
      var ops, op :| ops in rest && op in ops && left <= PagesOf(op);
      assert ops in script;
    }
  }

  // Why a save fails: the script is used up, or a page operation found no page.
  ghost predicate Stopped(t: Txn, rest: seq<seq<Op>>, script: seq<seq<Op>>)
    reads t
  {
    rest == [] || Starved(t.dirtyRoom, t.maxpg - t.nextPgno, script)
  }

  lemma StoppedMore(t: Txn, rest: seq<seq<Op>>, part: seq<seq<Op>>, script: seq<seq<Op>>)
    requires Stopped(t, rest, part) && Suffix(part, script)
    ensures Stopped(t, rest, script)
  {
    hide Starved, Suffix;
    if rest != [] {
      StarvedMore(t.dirtyRoom, t.maxpg - t.nextPgno, part, script);
    }
  }

  lemma StoppedIs(t: Txn, rest: seq<seq<Op>>, script: seq<seq<Op>>)
    requires Stopped(t, rest, script)
    ensures rest == [] || Starved(t.dirtyRoom, t.maxpg - t.nextPgno, script)
  {
  }

  // What a write to the freeDB leaves alone.
  ghost predicate Churned(v: View, v': View) {
    && v'.txnid == v.txnid && v'.maxpg == v.maxpg && v'.db == v.db && v.freed <= v'.freed
    && v.last <= v'.last && (v'.last == v.last || v'.last in v.db)
    && (v.loose == [] ==> v'.loose == [])
  }

  lemma ChurnedTrans(a: View, b: View, c: View)
    requires Churned(a, b) && Churned(b, c)
    ensures Churned(a, c)
  {
  }

  lemma ChurnedSame(a: View)
    ensures Churned(a, a)
  {
  }

  method Apply(t: Txn, op: Op) returns (ok: bool)
    requires t.Valid()
    modifies t, t.pghead, t.freePgs
    ensures t.Valid() && Churned(old(t.V()), t.V())
    ensures t.pghead == old(t.pghead) || fresh(t.pghead)
    ensures t.freePgs == old(t.freePgs) || fresh(t.freePgs)
    ensures !ok ==> t.dirtyRoom == 0 || t.maxpg - t.nextPgno <= PagesOf(op)
  {
    hide Ok, Abs, Allocated, FreePages, Release, Loosen;
    ok := true;
    match op
    case TouchOp(p, scanned) =>
      if p in t.tree && scanned < t.txnid {
        var r := t.PageTouch(p, scanned);
        ok := r.Got?;
      }
    case NewOp(num, scanned) =>
      if num > 0 && scanned < t.txnid {
        ghost var v := t.V();
        var r := t.PageAlloc(num, scanned);
        AllocatedKeeps(v, t.V(), num, r, Max(scanned, v.oldest));
        ok := r.Got?;
      }
    case FreeOp(p) =>
      if p in t.tree {
        t.PageLoose(p, true);
      }
    case FreeRunOp(pg, ov) =>
      if RunOf(pg, ov) <= t.tree && (RunOf(pg, ov) <= t.dirty || RunOf(pg, ov) !! t.dirty) {
        t.OvpageFree(pg, ov);
      }
  }

  // One write to the freeDB: the operations of the script's first entry.
  method Write(t: Txn, script: seq<seq<Op>>) returns (ok: bool, rest: seq<seq<Op>>)
    requires t.Valid()
    modifies t, t.pghead, t.freePgs
    ensures t.Valid() && Churned(old(t.V()), t.V())
    ensures t.pghead == old(t.pghead) || fresh(t.pghead)
    ensures t.freePgs == old(t.freePgs) || fresh(t.freePgs)
    ensures rest == if script == [] then [] else script[1..]
    ensures script != [] && script[0] == [] ==> ok && t.V() == old(t.V())
    ensures ok ==> script != []
    ensures !ok ==> Stopped(t, rest, script)
  {
    hide Ok, Churned;
    ghost var v := t.V();
    ChurnedSame(v);
    rest := script;
    if script == [] {
      return false, [];
    }
    rest := script[1..];
    ok := true;
    var ops := script[0];
    for k := 0 to |ops|
      invariant t.Shape() && Ok(t.V()) && Churned(v, t.V()) && (ops == [] ==> t.V() == v) && ok
      invariant t.pghead == old(t.pghead) || fresh(t.pghead)
      invariant t.freePgs == old(t.freePgs) || fresh(t.freePgs)
    {
      ghost var u := t.V();
      ok := Apply(t, ops[k]);
      ChurnedTrans(v, u, t.V());
      if !ok {
        assert ops in script && ops[k] in ops;
        return;
      }
    }
  }

  // ------------------------------------------------------- reserved records

  ghost function Room(db: map<nat, Record>, k: nat): (n: nat) {
    if k in db then db[k].room else 0
  }

  ghost function RoomSum(db: map<nat, Record>, lo: nat, hi: nat): (n: nat)
    decreases hi + 1 - lo
  {
    if lo > hi then 0 else Room(db, lo) + RoomSum(db, lo + 1, hi)
  }

  lemma {:induction false} RoomSumSame(a: map<nat, Record>, b: map<nat, Record>, lo: nat, hi: nat)
    requires forall k :: lo <= k <= hi ==> Room(a, k) == Room(b, k)
    ensures RoomSum(a, lo, hi) == RoomSum(b, lo, hi)
    decreases hi + 1 - lo
  {
    if lo <= hi { RoomSumSame(a, b, lo + 1, hi); }
  }

  // Room in a range means a record in it.
  lemma {:induction false} RoomHasKey(db: map<nat, Record>, lo: nat, hi: nat) returns (k: nat)
    requires RoomSum(db, lo, hi) > 0
    ensures lo <= k <= hi && k in db
    decreases hi + 1 - lo
  {
    if lo in db { k := lo; } else { k := RoomHasKey(db, lo + 1, hi); }
  }

  lemma {:induction false} RoomSkip(db: map<nat, Record>, lo: nat, k: nat, hi: nat)
    requires lo <= k <= hi + 1 && forall m :: lo <= m < k ==> m !in db
    ensures RoomSum(db, lo, hi) == RoomSum(db, k, hi)
    decreases k - lo
  {
    if lo < k { RoomSkip(db, lo + 1, k, hi); }
  }

  // The local variables of mdb_freelist_save.
  datatype Locals = Locals(pglast: nat, headId: nat, headRoom: nat, totalRoom: nat, freecnt: nat)

  // The unconsumed records are those the transaction started the save with.
  ghost predicate LiveSame(v: View, db0: map<nat, Record>) {
    forall k :: v.last < k < v.txnid ==> (k in v.db <==> k in db0) && (k in v.db ==> v.db[k] == db0[k])
  }

  // Records up to the local pglast are empty and reserved by the save itself.
  ghost predicate Reserved(v: View, l: Locals) {
    && (forall k :: k in v.db ==> 1 <= k <= v.txnid)
    && (forall k :: k in v.db && k <= l.pglast ==> l.headId <= k && v.db[k].ids == [])
    && (l.pglast > 0 ==> 1 <= l.headId <= l.pglast)
    && (l.pglast == 0 ==> l.headId == 0)
    && l.headRoom == (if l.headId <= l.pglast then Room(v.db, l.headId) else 0)
    && l.totalRoom == RoomSum(v.db, l.headId, l.pglast)
  }

  ghost predicate FreedSaved(v: View, l: Locals) {
    && l.freecnt <= |v.freed|
    && (l.freecnt > 0 ==> v.txnid in v.db && v.db[v.txnid].ids == v.freed[..l.freecnt])
    && (l.freecnt == 0 ==> v.txnid !in v.db)
  }

  ghost predicate Saving(v: View, l: Locals, db0: map<nat, Record>) {
    && Ok(v) && LiveSame(v, db0) && Reserved(v, l) && FreedSaved(v, l)
    && l.pglast <= v.last && (l.pglast < v.last ==> v.last in v.db)
    && (!v.hasHead ==> v.loose == [])
  }

  lemma SavingStarts(v: View)
    requires Ok(v) && (!v.hasHead ==> v.loose == []) && (v.last > 0 ==> v.last in v.db)
    requires forall k :: k in v.db ==> 1 <= k < v.txnid
    ensures Saving(v, Locals(0, 0, 0, 0, 0), v.db)
  {
  }

  lemma SavingChurned(v: View, v': View, l: Locals, db0: map<nat, Record>)
    requires Saving(v, l, db0) && Churned(v, v') && Ok(v')
    ensures Saving(v', l, db0)
  {
    hide Conserved, StrictlyDescending, NoDups;
    if l.freecnt > 0 {
      assert v.freed[..l.freecnt] == v'.freed[..l.freecnt];
    }
  }

  // Removing a consumed or reserved record does not touch the page sets.
  lemma DbOk(v: View, db: map<nat, Record>)
    requires Ok(v)
    requires forall k :: v.last < k < v.txnid ==> (k in db <==> k in v.db) && (k in db ==> db[k] == v.db[k])
    ensures Ok(v.(db := db))
  {
    var a, b := Abs(v), Abs(v.(db := db));
    assert forall k :: Live(a, k) <==> Live(b, k);
    assert forall k :: Live(a, k) ==> a.records[k] == b.records[k];
    forall p: nat
      ensures InLive(a, p) <==> InLive(b, p)
    {
      if InLive(a, p) {
        var k :| Live(a, k) && p in a.records[k];
        assert Live(b, k);
      }
      if InLive(b, p) {
        var k :| Live(b, k) && p in b.records[k];
        assert Live(a, k);
      }
    }
    assert forall p: nat :: Accounted(a, p) <==> Accounted(b, p);
  }

  // Deleting the first record: everything up to it is gone.
  lemma SavingDeletes(v: View, l: Locals, db0: map<nat, Record>, k: nat)
    requires Saving(v, l, db0) && l.pglast < v.last && k in v.db && forall m :: m in v.db ==> k <= m
    ensures k <= v.last && Saving(v.(db := v.db - {k}), Locals(k, k, 0, 0, l.freecnt), db0)
  {
    hide Conserved, StrictlyDescending, NoDups, Ok;
    var db := v.db - {k};
    assert k <= v.last < v.txnid by { OkLast(v); }
    DbOk(v, db);
    assert forall m :: m in db ==> m > k;
    assert RoomSum(db, k, k) == Room(db, k) + RoomSum(db, k + 1, k);
  }

  lemma OkLast(v: View)
    requires Ok(v)
    ensures v.last < v.txnid && (v.hasHead <==> v.last > 0) && (!v.hasHead ==> v.head == [])
    ensures StrictlyDescending(v.head) && NoDups(v.freed) && NoDups(v.loose)
  {
  }

  // mt_free_pgs is sorted in place before it is written.
  lemma SortFreedOk(v: View, sorted: seq<nat>)
    requires Ok(v) && multiset(sorted) == multiset(v.freed)
    ensures Ok(v.(freed := sorted)) && Abs(v.(freed := sorted)) == Abs(v) && |sorted| == |v.freed|
  {
    SortedSame(v.freed, sorted);
    assert Abs(v.(freed := sorted)) == Abs(v);
  }

  lemma SortedSame(a: seq<nat>, b: seq<nat>)
    requires NoDups(a) && multiset(a) == multiset(b)
    ensures NoDups(b) && Elems(a) == Elems(b) && |a| == |b|
  {
    assert |a| == |multiset(a)| && |b| == |multiset(b)|;
    DistinctCounts(a);
    forall x
      ensures x in a <==> x in b
    {
      assert x in a <==> x in multiset(a);
      assert x in b <==> x in multiset(b);
    }
    forall i, j | 0 <= i < j < |b|
      ensures b[i] != b[j]
    {
      CountedTwice(b, i, j);
      assert multiset(b)[b[i]] <= 1;
    }
  }

  // Reserving `room` entries under key `id`, the smallest of the save's keys.
  lemma SavingReserves(v: View, l: Locals, db0: map<nat, Record>, id: nat, room: nat)
    requires Saving(v, l, db0) && 1 <= id <= l.pglast && (id == l.headId || id + 1 == l.headId)
    requires l.pglast <= v.last
    ensures var below := if id == l.headId then l.totalRoom - l.headRoom else l.totalRoom;
            && below >= 0
            && Saving(v.(db := v.db[id := Record(room, [])]), Locals(l.pglast, id, room, below + room, l.freecnt), db0)
  {
    hide Conserved, StrictlyDescending, NoDups, Ok;
    OkLast(v);
    var db := v.db[id := Record(room, [])];
    DbOk(v, db);
    RoomSumSame(v.db, db, id + 1, l.pglast);
    assert RoomSum(v.db, l.headId, l.pglast) == Room(v.db, l.headId) + RoomSum(v.db, l.headId + 1, l.pglast);
    assert RoomSum(db, id, l.pglast) == room + RoomSum(db, id + 1, l.pglast);
  }

  lemma SavingSortsFreed(v: View, l: Locals, db0: map<nat, Record>, sorted: seq<nat>)
    requires Saving(v, l, db0) && |v.freed| > 0 && multiset(sorted) == multiset(v.freed)
    ensures |sorted| == |v.freed|
    ensures Saving(v.(freed := sorted, db := v.db[v.txnid := Record(|sorted|, sorted)]), l.(freecnt := |sorted|), db0)
  {
    hide Conserved, StrictlyDescending, NoDups, Ok;
    SortFreedOk(v, sorted);
    var u := v.(freed := sorted);
    var db := v.db[v.txnid := Record(|sorted|, sorted)];
    OkLast(u);
    DbOk(u, db);
    RoomSumSame(v.db, db, l.headId, l.pglast);
    assert sorted[..|sorted|] == sorted;
  }

  // ------------------------------------------------------ how many writes it takes

  // The last `n` writes need no page operations.
  ghost predicate Quiet(script: seq<seq<Op>>, n: nat) {
    forall i :: 0 <= i < |script| && |script| - n <= i ==> script[i] == []
  }

  // Enough for what any state of the save still has to write.
  function Enough(txnid: nat): nat {
    3 * txnid + 5
  }

  // The script has one more entry than that, and its last ones are quiet.
  ghost predicate Settles(script: seq<seq<Op>>, txnid: nat) {
    |script| > Enough(txnid) && Quiet(script, Enough(txnid))
  }

  // The number of keys 1 to n.
  ghost function Keys(db: map<nat, Record>, n: nat): (c: nat)
    ensures c <= n
  {
    if n == 0 then 0 else Keys(db, n - 1) + if n in db then 1 else 0
  }

  lemma {:induction false} KeysLess(db: map<nat, Record>, k: nat, n: nat)
    requires k in db && 1 <= k
    ensures Keys(db - {k}, n) == Keys(db, n) - if k <= n then 1 else 0
    decreases n
  {
    if n > 0 {
      KeysLess(db, k, n - 1);
    }
  }

  lemma {:induction false} KeysAbove(db: map<nat, Record>, k: nat, r: Record, n: nat)
    requires n < k
    ensures Keys(db[k := r], n) == Keys(db, n)
    decreases n
  {
    if n > 0 {
      KeysAbove(db, k, r, n - 1);
    }
  }

  // Writes to make the reserved room enough for `mop` entries.
  ghost function ReserveWork(headId: nat, headRoom: nat, total: int, mop: nat, page: nat, more: nat): nat {
    if total == mop then 0
    else
      (if total < mop then headId + (if headRoom < page then 1 else 0) else 0)
      + (if more > 0 then headId + 2 else 0)
  }

  // Writes still to come while they change nothing else: delete what was consumed, save what was
  // freed, reserve room for me_pghead, once more when it came out too large.
  ghost function Work(v: View, l: Locals, page: nat, more: nat): nat {
    (if l.freecnt < |v.freed| then 2 else 0)
    + if l.pglast < v.last then Keys(v.db, v.last) + v.last + 1 + (if more > 0 then v.last + 2 else 0)
      else ReserveWork(l.headId, l.headRoom, l.totalRoom, |v.head| + |v.loose|, page, more)
  }

  // The script is quiet at its end and has writes left for the work, but for `k` of them.
  ghost predicate Calm(v: View, l: Locals, rest: seq<seq<Op>>, page: nat, more: nat, k: nat) {
    Quiet(rest, Enough(v.txnid)) && Work(v, l, page, more) <= |rest| + k
  }

  lemma WorkBound(v: View, l: Locals, db0: map<nat, Record>, page: nat, more: nat)
    requires Saving(v, l, db0)
    ensures Work(v, l, page, more) <= Enough(v.txnid)
  {
    hide Ok;
    OkLast(v);
  }

  lemma QuietNext(script: seq<seq<Op>>, n: nat)
    requires script != [] && Quiet(script, n)
    ensures Quiet(script[1..], n) && (script[0] != [] ==> |script| > n)
  {
    var rest := script[1..];
    forall i | 0 <= i < |rest| && |rest| - n <= i
      ensures rest[i] == []
    {
      assert rest[i] == script[i + 1];
    }
  }

  // A quiet write leaves the work as it was; any other one leaves as many writes as are ever needed.
  lemma CalmWrite(v: View, v': View, l: Locals, db0: map<nat, Record>, script: seq<seq<Op>>, page: nat, more: nat, k: nat)
    requires Saving(v', l, db0) && script != [] && (script[0] == [] ==> v' == v) && v'.txnid == v.txnid
    requires Calm(v, l, script, page, more, k)
    ensures Calm(v', l, script[1..], page, more, if v' == v then k + 1 else 0)
    ensures v' == v || |script| > Enough(v.txnid)
  {
    hide Saving, Work, Quiet;
    WorkBound(v', l, db0, page, more);
    QuietNext(script, Enough(v.txnid));
  }

  // A write that is needed fails only on an entry before the quiet ones.
  lemma CalmFails(v: View, l: Locals, script: seq<seq<Op>>, page: nat, more: nat, k: nat)
    requires Calm(v, l, script, page, more, k) && Work(v, l, page, more) > k && (script != [] ==> script[0] != [])
    ensures |script| > 1
  {
    hide Work, Quiet;
    if script != [] {
      QuietNext(script, Enough(v.txnid));
    }
  }

  lemma SuffixSelf(script: seq<seq<Op>>)
    ensures Suffix([], script) && Suffix(script, script)
  {
  }

  lemma CalmLess(v: View, l: Locals, rest: seq<seq<Op>>, page: nat, more: nat, k: nat, n: nat)
    requires Calm(v, l, rest, page, more, k) && k <= n
    ensures Calm(v, l, rest, page, more, n)
  {
    hide Work, Quiet;
  }

  lemma SuffixNext(part: seq<seq<Op>>, script: seq<seq<Op>>)
    requires Suffix(part, script)
    ensures part != [] ==> Suffix(part[1..], script)
  {
  }

  lemma FreedWork(v: View, l: Locals, page: nat, more: nat)
    requires l.freecnt < |v.freed|
    ensures Work(v, l, page, more) == 2 + Work(v, l.(freecnt := |v.freed|), page, more)
  {
  }

  // The work that was paid for is done.
  lemma CalmNext(v: View, v': View, l: Locals, l': Locals, rest: seq<seq<Op>>, page: nat, more: nat, left: nat, k: nat)
    requires Calm(v, l, rest, page, more, k) && v'.txnid == v.txnid
    requires Work(v', l', page, left) + k <= Work(v, l, page, more)
    ensures Calm(v', l', rest, page, left, 0)
  {
    hide Work, Quiet;
  }

  // The record of this transaction is no concern of the rest.
  lemma FreedSavedWork(v: View, l: Locals, db0: map<nat, Record>, sorted: seq<nat>, page: nat, more: nat)
    requires Saving(v, l, db0) && |sorted| == |v.freed|
    ensures var v' := v.(freed := sorted, db := v.db[v.txnid := Record(|sorted|, sorted)]);
      Work(v', l.(freecnt := |sorted|), page, more) == Work(v, l.(freecnt := |v.freed|), page, more)
  {
    hide Ok;
    OkLast(v);
    KeysAbove(v.db, v.txnid, Record(|sorted|, sorted), v.last);
  }

  lemma DeleteWork(v: View, l: Locals, db0: map<nat, Record>, k: nat, page: nat, more: nat)
    requires Saving(v, l, db0) && l.pglast < v.last && k in v.db && forall m :: m in v.db ==> k <= m
    ensures Work(v.(db := v.db - {k}), Locals(k, k, 0, 0, l.freecnt), page, more) < Work(v, l, page, more)
  {
    hide Ok;
    KeysLess(v.db, k, v.last);
  }

  // Rewriting a record brings the room closer to what is wanted.
  lemma RoomWork(l: Locals, headId: nat, totalRoom: int, want: nat, mop: nat, page: nat, more: nat)
    requires l.headId >= 1 && l.headRoom <= l.totalRoom
    requires headId == if l.totalRoom < mop && l.headRoom >= page && l.headId > 1 then l.headId - 1 else l.headId
    requires totalRoom == l.totalRoom - if headId == l.headId then l.headRoom else 0
    requires RightRoom(headId, totalRoom, mop, page, want)
    requires l.totalRoom != mop && (l.totalRoom > mop ==> more > 0) && more <= 1
    ensures ReserveWork(headId, want, totalRoom + want, mop, page, Left(l.totalRoom, mop, more))
          < ReserveWork(l.headId, l.headRoom, l.totalRoom, mop, page, more)
  {
    if mop - totalRoom > page && headId > 1 {
      WholePagesFill(Share(mop - totalRoom, headId), page, want);
    }
  }

  // Whether there is another try after one that came out too large.
  ghost function Left(total: int, mop: nat, more: nat): nat
    requires total > mop ==> more > 0
  {
    if total > mop then more - 1 else more
  }

  ghost predicate Rewritten(l: Locals, l1: Locals, mop: nat, page: nat) {
    && l1.headId == (if l.totalRoom < mop && l.headRoom >= page && l.headId > 1 then l.headId - 1 else l.headId)
    && l1.totalRoom - l1.headRoom == l.totalRoom - (if l1.headId == l.headId then l.headRoom else 0)
    && RightRoom(l1.headId, l1.totalRoom - l1.headRoom, mop, page, l1.headRoom)
    && l1.pglast == l.pglast && l1.freecnt == l.freecnt
  }

  lemma ReservedWork(v: View, l: Locals, l1: Locals, page: nat, more: nat)
    requires l.pglast == v.last && l.freecnt == |v.freed| && more <= 1 && l.headId >= 1 && l.headRoom <= l.totalRoom
    requires Rewritten(l, l1, |v.head| + |v.loose|, page)
    requires l.totalRoom != |v.head| + |v.loose| && (l.totalRoom > |v.head| + |v.loose| ==> more > 0)
    ensures Work(v.(db := v.db[l1.headId := Record(l1.headRoom, [])]), l1, page, Left(l.totalRoom, |v.head| + |v.loose|, more))
          < Work(v, l, page, more)
  {
    RoomWork(l, l1.headId, l1.totalRoom - l1.headRoom, l1.headRoom, |v.head| + |v.loose|, page, more);
  }

  // The record is put after the write, which changed nothing or left enough for whatever is to come.
  lemma CalmReserved(v: View, db0: map<nat, Record>, l: Locals, l1: Locals, rest: seq<seq<Op>>, page: nat, more: nat, left: nat)
    requires exists k :: Calm(v, l, rest, page, more, k)
    requires var u := v.(db := v.db[l1.headId := Record(l1.headRoom, [])]);
      || (Calm(v, l, rest, page, more, 1) && Work(u, l1, page, left) < Work(v, l, page, more))
      || (|rest| >= Enough(v.txnid) && Saving(u, l1, db0))
    ensures Calm(v.(db := v.db[l1.headId := Record(l1.headRoom, [])]), l1, rest, page, left, 0)
  {
    hide Work, Quiet, Saving;
    var u := v.(db := v.db[l1.headId := Record(l1.headRoom, [])]);
    if Saving(u, l1, db0) {
      WorkBound(u, l1, db0, page, left);
    }
  }

  lemma WholePagesFill(share: nat, page: nat, want: nat)
    requires WholePages(share, page + 1, want)
    ensures want >= page
  {
    var q := share / (page + 1);
    assert (page + 1) * (q + 1) == (page + 1) * q + page + 1;
    assert (page + 1) * q >= 0;
  }

  // ------------------------------------------------------------- list sizes

  lemma {:induction false} BoundedCount(s: seq<nat>, n: nat)
    requires NoDups(s) && forall i :: 0 <= i < |s| ==> s[i] < n
    ensures |s| <= n
    decreases |s|
  {
    if s != [] {
      var init, last := s[..|s| - 1], s[|s| - 1];
      var moved := seq(|init|, i requires 0 <= i < |init| => if init[i] == n - 1 then last else init[i]);
      BoundedCount(moved, n - 1);
    }
  }

  lemma ListsBounded(v: View)
    requires Ok(v)
    ensures |v.freed| <= v.maxpg && |v.loose| <= v.maxpg
    ensures forall i :: 0 <= i < |v.loose| ==> v.loose[i] <= ID_MAX
  {
    var ps := Abs(v);
    forall i | 0 <= i < |v.freed|
      ensures v.freed[i] < v.next
    {
      assert v.freed[i] in Elems(v.freed);
      assert Accounted(ps, v.freed[i]);
    }
    forall i | 0 <= i < |v.loose|
      ensures v.loose[i] < v.next
    {
      assert v.loose[i] in Elems(v.loose);
      assert Accounted(ps, v.loose[i]);
    }
    BoundedCount(v.freed, v.next);
    BoundedCount(v.loose, v.next);
  }

  // ------------------------------------------------------------- the method

  // A write in the course of the save of `whole`, with work for it to do.
  method WriteMore(t: Txn, l: Locals, script: seq<seq<Op>>, ghost db0: map<nat, Record>, ghost whole: seq<seq<Op>>,
      ghost page: nat, ghost more: nat, ghost k: nat)
    returns (ok: bool, rest: seq<seq<Op>>)
    requires t.Shape() && Saving(t.V(), l, db0) && Suffix(script, whole) && Work(t.V(), l, page, more) > k
    modifies t, t.pghead, t.freePgs
    ensures t.Shape() && (t.pghead == old(t.pghead) || fresh(t.pghead)) && (t.freePgs == old(t.freePgs) || fresh(t.freePgs))
    ensures Saving(t.V(), l, db0) && t.freeDb == old(t.freeDb)
    ensures old(t.pglast) <= t.pglast && old(t.freePgs[0]) <= t.freePgs[0]
    ensures Suffix(rest, whole) && (ok ==> |rest| < |script|) && (!ok ==> Stopped(t, rest, whole))
    ensures Calm(old(t.V()), l, script, page, more, k) ==>
              if ok then Calm(t.V(), l, rest, page, more, if t.V() == old(t.V()) then k + 1 else 0) else rest != []
    ensures Calm(old(t.V()), l, script, page, more, k) && ok ==> t.V() == old(t.V()) || |rest| >= Enough(t.txnid)
  {
    hide Ok, Saving, Churned, Work, Calm, Starved, Suffix;
    ghost var v := t.V();
    SavingFields(v, l, db0);
    ok, rest := Write(t, script);
    SuffixNext(script, whole);
    SavingChurned(v, t.V(), l, db0);
    ChurnedFields(v, t.V());
    if ok {
      if Calm(v, l, script, page, more, k) {
        CalmWrite(v, t.V(), l, db0, script, page, more, k);
      }
    } else {
      if Calm(v, l, script, page, more, k) {
        CalmFails(v, l, script, page, more, k);
      }
      SuffixSelf(whole);
      StoppedMore(t, rest, script, whole);
    }
  }

  // Delete the first record of the freeDB.
  method DeleteFirst(t: Txn, l0: Locals, script: seq<seq<Op>>, ghost db0: map<nat, Record>, ghost whole: seq<seq<Op>>,
      ghost page: nat, ghost more: nat)
    returns (ok: bool, l: Locals, rest: seq<seq<Op>>)
    requires t.Shape() && Saving(t.V(), l0, db0) && Suffix(script, whole) && l0.pglast < t.pglast
    modifies t, t.pghead, t.freePgs
    ensures t.Shape() && (t.pghead == old(t.pghead) || fresh(t.pghead)) && (t.freePgs == old(t.freePgs) || fresh(t.freePgs))
    ensures ok ==> Saving(t.V(), l, db0) && l.pglast <= t.pglast && l.freecnt == l0.freecnt && |rest| < |script|
    ensures Suffix(rest, whole) && (!ok ==> Stopped(t, rest, whole))
    ensures Calm(old(t.V()), l0, script, page, more, 0) ==> if ok then Calm(t.V(), l, rest, page, more, 0) else rest != []
  {
    hide Ok, Saving, Work, Calm, Suffix, Stopped;
    l := l0;
    ghost var v := t.V();
    SavingFields(v, l, db0);
    var found, key := t.SeekRecord(0);
    DeleteWork(v, l, db0, key, page, more);
    ok, rest := WriteMore(t, l, script, db0, whole, page, more, 0);
    if !ok { return; }
    ghost var v' := t.V();
    DeleteWork(v', l, db0, key, page, more);
    SavingDeletes(v', l, db0, key);
    l := Locals(key, key, 0, 0, l.freecnt);
    t.freeDb := t.freeDb - {key};
    if Calm(v, l0, script, page, more, 0) {
      CalmLess(v', l0, rest, page, more, if v' == v then 1 else 0, 1);
      CalmNext(v', t.V(), l0, l, rest, page, more, more, 1);
    }
  }

  // Delete the records that were consumed, and any reserved for me_pghead.
  method DeleteConsumed(t: Txn, l0: Locals, script: seq<seq<Op>>, ghost db0: map<nat, Record>,
      ghost page: nat, ghost more: nat)
    returns (ok: bool, l: Locals, rest: seq<seq<Op>>)
    requires t.Shape() && Saving(t.V(), l0, db0)
    modifies t, t.pghead, t.freePgs
    ensures t.Shape() && (t.pghead == old(t.pghead) || fresh(t.pghead)) && (t.freePgs == old(t.freePgs) || fresh(t.freePgs))
    ensures ok ==> Saving(t.V(), l, db0) && l.pglast == t.pglast && l.freecnt == l0.freecnt
    ensures Suffix(rest, script) && (!ok ==> Stopped(t, rest, script))
    ensures Calm(old(t.V()), l0, script, page, more, 0) ==> if ok then Calm(t.V(), l, rest, page, more, 0) else rest != []
  {
    hide Ok, Saving, Calm, Suffix, Stopped;
    ghost var calm := Calm(t.V(), l0, script, page, more, 0);
    ok, l, rest := true, l0, script;
    SuffixSelf(script);
    SavingFields(t.V(), l, db0);
    while l.pglast < t.pglast
      invariant t.Shape() && Saving(t.V(), l, db0) && Suffix(rest, script) && l.freecnt == l0.freecnt && l.pglast <= t.pglast
      invariant ok && (calm ==> Calm(t.V(), l, rest, page, more, 0))
      invariant (t.pghead == old(t.pghead) || fresh(t.pghead)) && (t.freePgs == old(t.freePgs) || fresh(t.freePgs))
      decreases |rest|
    {
      ok, l, rest := DeleteFirst(t, l, rest, db0, script, page, more);
      if !ok { return; }
    }
  }

  lemma SavingFields(v: View, l: Locals, db0: map<nat, Record>)
    requires Saving(v, l, db0)
    ensures Ok(v) && l.pglast <= v.last && (l.pglast < v.last ==> v.last in v.db)
    ensures l.freecnt <= |v.freed| && l.headRoom <= l.totalRoom
    ensures (l.pglast > 0 ==> 1 <= l.headId <= l.pglast) && (l.pglast == 0 ==> l.totalRoom == 0)
    ensures v.last == 0 ==> v.head == [] && v.loose == []
  {
    assert l.pglast > 0 ==> RoomSum(v.db, l.headId, l.pglast) == Room(v.db, l.headId) + RoomSum(v.db, l.headId + 1, l.pglast);
    assert l.pglast == 0 ==> RoomSum(v.db, 0, 0) == Room(v.db, 0) + RoomSum(v.db, 1, 0);
  }

  lemma ChurnedFields(v: View, v': View)
    requires Churned(v, v')
    ensures v'.db == v.db && v.last <= v'.last && v.freed <= v'.freed && v'.txnid == v.txnid && v'.maxpg == v.maxpg
    ensures v'.last == v.last || v'.last in v.db
  {
  }

  // The first time, the last page of the freeDB is touched.
  method TouchLast(t: Txn, l: Locals, script: seq<seq<Op>>, ghost db0: map<nat, Record>, ghost page: nat, ghost more: nat)
    returns (ok: bool, rest: seq<seq<Op>>)
    requires t.Shape() && Saving(t.V(), l, db0) && l.freecnt < t.freePgs[0]
    modifies t, t.pghead, t.freePgs
    ensures t.Shape() && (t.pghead == old(t.pghead) || fresh(t.pghead)) && (t.freePgs == old(t.freePgs) || fresh(t.freePgs))
    ensures ok ==> Saving(t.V(), l, db0) && l.freecnt < t.freePgs[0]
    ensures Suffix(rest, script) && (ok ==> |rest| <= |script|) && (!ok ==> Stopped(t, rest, script))
    ensures Calm(old(t.V()), l, script, page, more, 0) ==> if ok then Calm(t.V(), l, rest, page, more, 1) else rest != []
  {
    hide Ok, Saving, Work, Calm, Suffix, Stopped;
    ok, rest := true, script;
    SuffixSelf(script);
    FreedWork(t.V(), l, page, more);
    if l.freecnt == 0 {
      ok, rest := WriteMore(t, l, rest, db0, script, page, more, 0);
      if !ok { return; }
    }
    if Calm(old(t.V()), l, script, page, more, 0) {
      CalmLess(t.V(), l, rest, page, more, if l.freecnt == 0 && t.V() == old(t.V()) then 1 else 0, 1);
    }
  }

  // Reserve space for mt_free_pgs, again while the list grows.
  method ReserveFreed(t: Txn, l: Locals, script: seq<seq<Op>>, ghost db0: map<nat, Record>, ghost whole: seq<seq<Op>>,
      ghost page: nat, ghost more: nat)
    returns (ok: bool, freecnt: nat, rest: seq<seq<Op>>)
    requires t.Shape() && Saving(t.V(), l, db0) && Suffix(script, whole) && l.freecnt < t.freePgs[0]
    modifies t, t.pghead, t.freePgs
    ensures t.Shape() && (t.pghead == old(t.pghead) || fresh(t.pghead)) && (t.freePgs == old(t.freePgs) || fresh(t.freePgs))
    ensures ok ==> Saving(t.V(), l, db0) && |rest| < |script| && l.freecnt < freecnt == t.freePgs[0]
    ensures Suffix(rest, whole) && (!ok ==> Stopped(t, rest, whole))
    ensures Calm(old(t.V()), l, script, page, more, 1) ==> if ok then Calm(t.V(), l, rest, page, more, 2) else rest != []
  {
    hide Ok, Saving, Work, Calm, Suffix, Stopped;
    ghost var calm := Calm(t.V(), l, script, page, more, 1);
    ok, freecnt, rest := true, 0, script;
    while freecnt < t.freePgs[0]
      invariant t.Shape() && Saving(t.V(), l, db0) && Suffix(rest, whole) && l.freecnt < t.freePgs[0]
      invariant ok && freecnt <= t.freePgs[0] && |rest| <= |script| && (freecnt > 0 ==> |rest| < |script|)
      invariant calm ==> Calm(t.V(), l, rest, page, more, if freecnt < t.freePgs[0] then 1 else 2)
      invariant (t.pghead == old(t.pghead) || fresh(t.pghead)) && (t.freePgs == old(t.freePgs) || fresh(t.freePgs))
      decreases |rest|
    {
      freecnt := t.freePgs[0];
      ghost var v := t.V();
      FreedWork(v, l, page, more);
      ok, rest := WriteMore(t, l, rest, db0, whole, page, more, 1);
      if !ok { return; }
      if calm {
        CalmLess(t.V(), l, rest, page, more, if t.V() == v then 2 else 0, if freecnt < t.freePgs[0] then 1 else 2);
      }
    }
  }

  // Write mt_free_pgs as the record of this transaction.  The space is reserved
  // again while the list grows; nothing reads the record meanwhile.
  method SaveFreed(t: Txn, l0: Locals, script: seq<seq<Op>>, ghost db0: map<nat, Record>, ghost page: nat, ghost more: nat)
    returns (rc: SaveResult, l: Locals, rest: seq<seq<Op>>)
    requires t.Shape() && Saving(t.V(), l0, db0) && l0.freecnt < t.freePgs[0]
    modifies t, t.pghead, t.freePgs
    ensures t.Shape() && (t.pghead == old(t.pghead) || fresh(t.pghead)) && (t.freePgs == old(t.freePgs) || fresh(t.freePgs))
    ensures rc.Done? ==> Saving(t.V(), l, db0) && |rest| < |script| && l.freecnt == t.freePgs[0]
    ensures rc.Undefined? ==> t.maxpg > SORT_MAX
    ensures Suffix(rest, script) && (rc.Failed? ==> Stopped(t, rest, script))
    ensures Calm(old(t.V()), l0, script, page, more, 0) && rc.Done? ==> Calm(t.V(), l, rest, page, more, 0)
    ensures Calm(old(t.V()), l0, script, page, more, 0) && rc.Failed? ==> rest != []
  {
    hide Ok, Saving, Descending, Work, Quiet, Starved, Calm, Suffix, Stopped;
    ghost var calm := Calm(t.V(), l0, script, page, more, 0);
    rc, l, rest := Failed, l0, script;
    var ok;
    ok, rest := TouchLast(t, l, script, db0, page, more);
    if !ok { return; }
    var freecnt;
    ok, freecnt, rest := ReserveFreed(t, l, rest, db0, script, page, more);
    if !ok { return; }
    if freecnt > SORT_MAX {
      SavingFields(t.V(), l, db0);
      ListsBounded(t.V());
      return Undefined, l, rest;
    }
    ghost var v := t.V();
    PutFreed(t, l, db0, page, more);
    if calm {
      CalmNext(v, t.V(), l, l.(freecnt := freecnt), rest, page, more, more, 2);
    }
    rc, l := Done, l.(freecnt := freecnt);
  }

  // Sort mt_free_pgs and copy it into the record.
  method PutFreed(t: Txn, l: Locals, ghost db0: map<nat, Record>, ghost page: nat, ghost more: nat)
    requires t.Shape() && Saving(t.V(), l, db0) && l.freecnt < t.freePgs[0] <= SORT_MAX
    modifies t`freeDb, t.freePgs
    ensures t.Shape() && t.freePgs[0] == old(t.freePgs[0]) && Saving(t.V(), l.(freecnt := t.freePgs[0]), db0)
    ensures Work(t.V(), l.(freecnt := t.freePgs[0]), page, more) + 2 == Work(old(t.V()), l, page, more)
  {
    hide Ok, Saving, Descending, Work;
    ghost var v := t.V();
    SavingFields(v, l, db0);
    Sort(t.freePgs);
    var sorted := t.freePgs[1..t.freePgs[0] + 1];
    SavingSortsFreed(v, l, db0, sorted);
    FreedWork(v, l, page, more);
    FreedSavedWork(v, l, db0, sorted, page, more);
    t.freeDb := t.freeDb[t.txnid := Record(|sorted|, sorted)];
  }

  // A record that does not take all that is left gets an equal share of it, rounded up so that it
  // fills whole overflow pages together with its count; the record of key 1 takes all that is left.
  ghost predicate RightRoom(headId: nat, totalRoom: int, mopLen: nat, maxfree1pg: nat, want: nat) {
    if mopLen - totalRoom > maxfree1pg && headId > 1 then
      WholePages(Share(mopLen - totalRoom, headId), maxfree1pg + 1, want)
    else
      totalRoom + want == Max(totalRoom, mopLen)
  }

  function Share(room: nat, records: nat): nat
    requires records > 0
  {
    room / records
  }

  ghost predicate WholePages(share: nat, page: nat, want: nat)
    requires page > 0
  {
    want + 1 == page * (share / page + 1) && share <= want < share + page
  }

  method Padded(share: nat, page: nat) returns (room: nat)
    requires page > 0
    ensures WholePages(share, page, room)
  {
    room := share + (page - 1 - share % page);
    ghost var q := share / page;
    assert share == page * q + share % page;
    assert page * (q + 1) == page * q + page;
  }

  // The next record to reserve, and how much room to ask for in it.
  method NextRoom(l: Locals, mopLen: nat, maxfree1pg: nat) returns (headId: nat, totalRoom: int, want: nat)
    ensures headId == if l.totalRoom < mopLen && l.headRoom >= maxfree1pg && l.headId > 1 then l.headId - 1 else l.headId
    ensures totalRoom == l.totalRoom - if headId == l.headId then l.headRoom else 0
    ensures RightRoom(headId, totalRoom, mopLen, maxfree1pg, want)
  {
    hide WholePages, Share;
    headId := l.headId;
    var headRoom := l.headRoom;
    if l.totalRoom < mopLen && headRoom >= maxfree1pg && headId > 1 {
      headId := headId - 1;
      headRoom := 0;
    }
    totalRoom := l.totalRoom - headRoom;
    var room: int := mopLen - totalRoom;
    if room > maxfree1pg && headId > 1 {
      room := Padded(Share(room, headId), maxfree1pg + 1);
    } else if room < 0 {
      room := 0;
    }
    want := room;
  }

  // (Re)write the record head_id with room for a part of me_pghead.
  method Reserve(t: Txn, l0: Locals, mopLen: nat, maxfree1pg: nat, script: seq<seq<Op>>, ghost db0: map<nat, Record>,
      ghost more: nat)
    returns (ok: bool, l: Locals, rest: seq<seq<Op>>)
    requires t.Shape() && Saving(t.V(), l0, db0) && l0.pglast == t.pglast > 0
    requires mopLen == |t.V().head| + |t.V().loose| && l0.freecnt == |t.V().freed| && more <= 1
    requires l0.totalRoom != mopLen && (l0.totalRoom > mopLen ==> more > 0)
    modifies t, t.pghead, t.freePgs
    ensures t.Shape() && (t.pghead == old(t.pghead) || fresh(t.pghead)) && (t.freePgs == old(t.freePgs) || fresh(t.freePgs))
    ensures ok ==> Saving(t.V(), l, db0) && |rest| < |script|
    ensures ok ==> RightRoom(l.headId, l.totalRoom - l.headRoom, mopLen, maxfree1pg, l.headRoom)
    ensures Suffix(rest, script) && (!ok ==> Stopped(t, rest, script))
    ensures Calm(old(t.V()), l0, script, maxfree1pg, more, 0) ==>
              if ok then Calm(t.V(), l, rest, maxfree1pg, Left(l0.totalRoom, mopLen, more), 0) else rest != []
  {
    hide Ok, Saving, RightRoom, Work, Quiet, Starved, Calm, Suffix, Stopped;
    SavingFields(t.V(), l0, db0);
    var headId, totalRoom, want := NextRoom(l0, mopLen, maxfree1pg);
    ghost var v := t.V();
    l := l0;
    ghost var calm, page := Calm(v, l0, script, maxfree1pg, more, 0), maxfree1pg;
    ghost var l1 := Locals(l0.pglast, headId, want, totalRoom + want, l0.freecnt);
    ReservedWork(v, l0, l1, page, more);
    SuffixSelf(script);
    ok, rest := WriteMore(t, l0, script, db0, script, page, more, 0);
    if !ok { return; }
    SavingFields(t.V(), l0, db0);
    SavingReserves(t.V(), l0, db0, headId, want);
    if calm {
      CalmReserved(t.V(), db0, l0, l1, rest, page, more, Left(l0.totalRoom, mopLen, more));
    }
    t.freeDb := t.freeDb[headId := Record(want, [])];
    l := Locals(l0.pglast, headId, want, totalRoom + want, l0.freecnt);
  }

  // ------------------------------------------------------------ loose pages

  lemma ReturnLooseOk(v: View, l: Locals, db0: map<nat, Record>, merged: seq<nat>)
    requires Saving(v, l, db0) && v.hasHead
    requires Descending(merged) && multiset(merged) == multiset(v.head) + multiset(v.loose)
    ensures |merged| == |v.head| + |v.loose|
    ensures Saving(v.(head := merged, loose := []), l, db0)
  {
    hide Conserved, LiveSame, RoomSum;
    var v' := v.(head := merged, loose := []);
    CountUnion(merged, v.head, v.loose);
    HeadLooseApart(v);
    MergeDistinct(v.head, v.loose, merged);
    LooseToHeadConserves(Abs(v));
    assert Elems([]) == {};
    assert Abs(v') == LooseToHead(Abs(v));
    assert Ok(v');
    assert LiveSame(v', db0) by { LiveSameFrame(v, v', db0); }
  }

  lemma HeadLooseApart(v: View)
    requires Ok(v)
    ensures Elems(v.head) !! Elems(v.loose)
  {
  }

  lemma LiveSameFrame(v: View, v': View, db0: map<nat, Record>)
    requires LiveSame(v, db0) && v'.db == v.db && v'.last == v.last && v'.txnid == v.txnid
    ensures LiveSame(v', db0)
  {
  }

  lemma CountUnion(m: seq<nat>, a: seq<nat>, b: seq<nat>)
    requires multiset(m) == multiset(a) + multiset(b)
    ensures |m| == |a| + |b|
  {
    assert |multiset(m)| == |m| && |multiset(a)| == |a| && |multiset(b)| == |b|;
  }

  // Return the loose page numbers to me_pghead: their sorted list goes into the
  // tail of the same allocation and is merged from there.
  method ReturnLoose(t: Txn, l: Locals, ghost db0: map<nat, Record>)
    requires t.Shape() && Saving(t.V(), l, db0) && t.pghead != null && |t.loose| <= SORT_MAX
    modifies t`pghead, t`loose, t.pghead
    ensures t.Shape() && t.pghead != null && (t.pghead == old(t.pghead) || fresh(t.pghead))
    ensures Saving(t.V(), l, db0) && t.loose == [] && t.pghead[0] == old(t.pghead[0] + |t.loose|)
  {
    hide Ok, Saving, Descending, StrictlyDescending, NoDups;
    ghost var v := t.V();
    SavingFields(v, l, db0);
    OkShape(v);
    ListsBounded(v);
    var list := ToList(t.loose);
    t.pghead := MergeTail(t.pghead, list, t.loose);
    ReturnLooseOk(v, l, db0, Ids(t.pghead));
    t.loose := [];
  }

  // Sort `list` and merge it into `head` through the tail of head's allocation.
  method MergeTail(head: array<nat>, list: array<nat>, ghost s: seq<nat>) returns (mop: array<nat>)
    requires ListAt(head, 0) && ListAt(list, 0) && head != list && Descending(Ids(head)) && list[0] <= SORT_MAX
    requires Ids(list) == s && forall i :: 0 <= i < |s| ==> s[i] <= ID_MAX
    modifies head, list
    ensures mop == head || fresh(mop)
    ensures ListAt(mop, 0) && Descending(Ids(mop)) && multiset(Ids(mop)) == multiset(old(Ids(head))) + multiset(s)
  {
    hide Descending;
    var count := list[0];
    Sort(list);
    SortedBound(s, Ids(list), ID_MAX);
    mop := Need(head, 2 * count + 1);
    var off := mop.Length - 1 - count;
    CopyList(mop, off, list);
    XMerge(mop, mop, off);
  }

  lemma SortedBound(a: seq<nat>, b: seq<nat>, n: nat)
    requires multiset(a) == multiset(b) && forall i :: 0 <= i < |a| ==> a[i] <= n
    ensures forall x :: x in b ==> x <= n
  {
    forall x | x in b
      ensures x <= n
    {
      assert x in multiset(b);
      assert x in a;
    }
  }

  method CopyList(mop: array<nat>, off: nat, list: array<nat>)
    requires ListAt(mop, 0) && ListAt(list, 0) && mop != list && mop[0] < off && off + list[0] < mop.Length
    modifies mop
    ensures ListAt(mop, 0) && ListAt(mop, off) && Ids(mop) == old(Ids(mop)) && IdsAt(mop, off) == Ids(list)
  {
    mop[off] := list[0];
    for k := 0 to list[0]
      invariant mop[off] == list[0]
      invariant forall x :: 0 <= x < off ==> mop[x] == old(mop[x])
      invariant forall x :: off < x <= off + k ==> mop[x] == list[x - off]
    {
      mop[off + 1 + k] := list[k + 1];
    }
    assert Ids(mop) == old(Ids(mop));
    assert IdsAt(mop, off) == Ids(list);
  }

  // ------------------------------------------------------------ filling in

  // Entries head[rem..] are filed under keys below `from`, each exactly once; the
  // reserved records from there on have room for the rest.
  ghost predicate Filling(v: View, l: Locals, db0: map<nat, Record>, from: nat, rem: nat) {
    && Ok(v) && LiveSame(v, db0) && FreedSaved(v, l) && l.freecnt == |v.freed|
    && v.loose == [] && l.pglast == v.last && rem <= |v.head|
    && (forall k :: k in v.db ==> 1 <= k <= v.txnid)
    && RoomSum(v.db, from, l.pglast) >= rem
    && (forall k :: k in v.db && from <= k <= l.pglast ==> v.db[k].ids == [])
    && FiledOnce(v.head[rem..], v.db, from, l.pglast)
  }

  // The entries of `tail` are filed under keys below `from`, each exactly once.
  ghost predicate FiledOnce(tail: seq<nat>, db: map<nat, Record>, from: nat, pglast: nat) {
    && (forall p :: p in tail <==> Filed(db, from, pglast, p))
    && (forall k, m, p :: k in db && m in db && k <= pglast && m <= pglast && p in db[k].ids && p in db[m].ids ==> k == m)
  }

  ghost predicate Filed(db: map<nat, Record>, from: nat, pglast: nat, p: nat) {
    exists k: nat :: k in db && k < from && k <= pglast && p in db[k].ids
  }

  lemma FillStarts(v: View, l: Locals, db0: map<nat, Record>)
    requires Saving(v, l, db0) && l.pglast == v.last && l.freecnt == |v.freed| && v.loose == [] && l.totalRoom >= |v.head|
    ensures Filling(v, l, db0, 0, |v.head|)
  {
    hide Ok;
    RoomSkip(v.db, 0, l.headId, l.pglast);
    assert v.head[|v.head|..] == [];
  }

  lemma FillStep(v: View, l: Locals, db0: map<nat, Record>, from: nat, rem: nat, key: nat, len: nat)
    requires Filling(v, l, db0, from, rem) && from <= key <= l.pglast && key in v.db
    requires forall k :: k in v.db && from <= k ==> key <= k
    requires len == if v.db[key].room > rem then rem else v.db[key].room
    ensures var slice := v.head[rem - len..rem];
            Filling(v.(db := v.db[key := Record(len, slice)]), l, db0, key + 1, rem - len)
  {
    hide Conserved, Ok, FiledOnce;
    OkLast(v);
    var slice := v.head[rem - len..rem];
    var db := v.db[key := Record(len, slice)];
    DbOk(v, db);
    RoomSkip(v.db, from, key, l.pglast);
    RoomSumSame(v.db, db, key + 1, l.pglast);
    SlicesApart(v.head, rem - len, rem);
    assert v.head[rem - len..] == slice + v.head[rem..];
    FileSlice(slice, v.head[rem..], v.db, from, l.pglast, key, len);
  }

  lemma FileSlice(slice: seq<nat>, tail: seq<nat>, db: map<nat, Record>, from: nat, pglast: nat, key: nat, len: nat)
    requires FiledOnce(tail, db, from, pglast) && from <= key <= pglast && key in db
    requires forall k :: k in db && from <= k <= pglast ==> key <= k && db[k].ids == []
    requires forall p :: p in slice ==> p !in tail
    ensures FiledOnce(slice + tail, db[key := Record(len, slice)], key + 1, pglast)
  {
    var db', next := db[key := Record(len, slice)], key + 1;
    forall p
      ensures p in slice + tail <==> Filed(db', next, pglast, p)
    {
      if p in slice { assert p in db'[key].ids; }
      if p in tail {
        var k :| k in db && k < from && k <= pglast && p in db[k].ids;
        assert p in db'[k].ids;
      }
      if Filed(db', next, pglast, p) {
        var k :| k in db' && k < next && k <= pglast && p in db'[k].ids;
        if k != key {
          assert k < from;
          assert Filed(db, from, pglast, p);
        }
      }
    }
    forall k, m, p | k in db' && m in db' && k <= pglast && m <= pglast && p in db'[k].ids && p in db'[m].ids
      ensures k == m
    {
      assert k != key && p in db[k].ids ==> Filed(db, from, pglast, p);
      assert m != key && p in db[m].ids ==> Filed(db, from, pglast, p);
    }
  }

  lemma SlicesApart(s: seq<nat>, a: nat, b: nat)
    requires StrictlyDescending(s) && a <= b <= |s|
    ensures forall p :: p in s[a..b] ==> p !in s[b..]
  {
  }

  /** The reserved records are filled from the tail of me_pghead; the tail-first
      cutting files every entry exactly once. */
  method Fill(t: Txn, l: Locals, ghost db0: map<nat, Record>) returns (ghost from: nat)
    requires t.Shape() && t.pghead != null && Filling(t.V(), l, db0, 0, t.pghead[0])
    modifies t`freeDb
    ensures t.Shape() && Filling(t.V(), l, db0, from, 0)
    ensures t.V() == old(t.V()).(db := t.freeDb)
  {
    hide Ok, Filling;
    var rem: nat, next: nat := t.pghead[0], 0;
    from := 0;
    while rem > 0
      invariant t.Shape() && t.pghead != null && from == next && rem <= t.pghead[0] && Filling(t.V(), l, db0, from, rem)
      invariant t.V() == old(t.V()).(db := t.freeDb)
      decreases l.pglast + 1 - next
    {
      var found, key := t.SeekRecord(next);
      FillHasKey(t.V(), l, db0, next, rem);
      var len := t.freeDb[key].room;
      if len > rem {
        len := rem;
      }
      var slice := t.pghead[rem - len + 1..rem + 1];
      FillStep(t.V(), l, db0, next, rem, key, len);
      HeadSlice(t.pghead, rem - len, rem);
      t.freeDb := t.freeDb[key := Record(len, slice)];
      rem := rem - len;
      next := key + 1;
      from := next;
    }
  }

  lemma HeadSlice(list: array<nat>, lo: nat, hi: nat)
    requires ListAt(list, 0) && lo <= hi <= list[0]
    ensures list[lo + 1..hi + 1] == Ids(list)[lo..hi]
  {
    var s := list[1..list[0] + 1];
    forall k | 0 <= k < hi - lo
      ensures list[lo + 1..hi + 1][k] == s[lo..hi][k]
    {
      assert s[lo..hi][k] == s[lo + k] == list[lo + k + 1];
    }
  }

  lemma FillHasKey(v: View, l: Locals, db0: map<nat, Record>, from: nat, rem: nat)
    requires Filling(v, l, db0, from, rem) && rem > 0
    ensures exists k :: k in v.db && from <= k <= l.pglast
  {
    var k := RoomHasKey(v.db, from, l.pglast);
  }

  lemma FillDone(v: View, l: Locals, db0: map<nat, Record>, from: nat)
    requires Filling(v, l, db0, from, 0) && (forall k :: k in db0 ==> 1 <= k < v.txnid)
    ensures Conserved(Abs(v.(db := db0))) && Saved(Abs(v.(db := db0)), RecordSets(v.db))
    ensures SnapshotPartition(v.tree, RecordSets(v.db), v.next)
  {
    hide Conserved, SnapshotPartition;
    var ps, after := Abs(v.(db := db0)), RecordSets(v.db);
    DbOk(v, db0);
    assert Ok(v) && v.last < v.txnid;
    assert v.head[0..] == v.head && Elems([]) == {};
    forall p
      ensures p in ps.head || p in ps.loose <==> exists k: nat :: k in after && k <= ps.last && p in after[k]
    {
      assert p in ps.head <==> p in v.head[0..];
      if p in v.head[0..] {
        var k :| k in v.db && k < from && k <= l.pglast && p in v.db[k].ids;
        assert p in after[k];
      }
      if exists k: nat :: k in after && k <= ps.last && p in after[k] {
        var k: nat :| k in after && k <= ps.last && p in after[k];
        assert p in v.db[k].ids;
        assert Filed(v.db, from, l.pglast, p);
      }
    }
    assert v.freed[..|v.freed|] == v.freed;
    assert forall k :: Live(ps, k) ==> k in after && after[k] == ps.records[k];
    SavedIsPartition(ps, after);
  }

  // ------------------------------------------------------------- the save

  /** mdb_freelist_save.  When it succeeds, the freeDB holds the unconsumed records
      unchanged, the pages freed by this transaction under its own id, and the
      reclaimed pages not used, the loose ones included, under consumed keys; every
      page is then either in the tree or in exactly one record. */
  method Save(t: Txn, maxfree1pg: nat, script: seq<seq<Op>>) returns (r: SaveResult, rest: seq<seq<Op>>)
    requires t.Valid()
    requires forall k :: k in t.freeDb ==> 1 <= k < t.txnid
    requires t.pglast > 0 ==> t.pglast in t.freeDb
    modifies t, t.pghead, t.freePgs
    ensures r.Done? ==>
              && t.Shape() && t.loose == []
              && Conserved(Abs(t.V().(db := old(t.freeDb))))
              && Saved(Abs(t.V().(db := old(t.freeDb))), RecordSets(t.freeDb))
              && SnapshotPartition(t.tree, RecordSets(t.freeDb), t.nextPgno)
    ensures r.Undefined? ==> t.maxpg > SORT_MAX
    ensures Suffix(rest, script) && (r.Failed? ==> Stopped(t, rest, script))
    ensures r.Failed? && Settles(script, t.txnid) ==> Starved(t.dirtyRoom, t.maxpg - t.nextPgno, script)
  {
    hide Ok, Saving, Conserved, Saved, SnapshotPartition, Abs, Calm, Settles, Suffix, Starved, Stopped;
    ghost var db0, settles := t.freeDb, Settles(script, t.txnid);
    r := Failed;
    var ok;
    ok, rest := Prepare(t, script, maxfree1pg);
    if !ok {
      StoppedIs(t, rest, script);
      return;
    }
    var l := Locals(0, 0, 0, 0, 0);
    var more := 1;
    while true
      invariant t.Shape() && Saving(t.V(), l, db0) && 0 <= more <= 1 && Suffix(rest, script)
      invariant r.Failed? && (settles ==> Calm(t.V(), l, rest, maxfree1pg, more, 0))
      invariant (t.pghead == old(t.pghead) || fresh(t.pghead)) && (t.freePgs == old(t.freePgs) || fresh(t.freePgs))
      decreases |rest|, more + 1
    {
      ghost var part := rest;
      ok, l, rest := DeleteConsumed(t, l, rest, db0, maxfree1pg, more);
      SuffixTrans(rest, part, script);
      if !ok {
        StoppedMore(t, rest, part, script);
        StoppedIs(t, rest, script);
        return;
      }
      part := rest;
      if l.freecnt < t.freePgs[0] {
        var rc;
        rc, l, rest := SaveFreed(t, l, rest, db0, maxfree1pg, more);
        SuffixTrans(rest, part, script);
        if !rc.Done? {
          if rc.Failed? {
            StoppedMore(t, rest, part, script);
            StoppedIs(t, rest, script);
          }
          r := rc;
          return;
        }
        continue;
      }
      SavingFields(t.V(), l, db0);
      var mopLen := (if t.pghead == null then 0 else t.pghead[0]) + |t.loose|;
      ghost var tries := more;
      if l.totalRoom >= mopLen {
        if l.totalRoom == mopLen { break; }
        more := more - 1;
        if more < 0 { break; }
      }
      ok, l, rest := Reserve(t, l, mopLen, maxfree1pg, rest, db0, tries);
      SuffixTrans(rest, part, script);
      if !ok {
        StoppedMore(t, rest, part, script);
        StoppedIs(t, rest, script);
        return;
      }
    }
    r := Finish(t, l, db0);
  }

  // Before the loop: touch the first page of the freeDB, or drop the loose pages.
  method Prepare(t: Txn, script: seq<seq<Op>>, ghost page: nat) returns (ok: bool, rest: seq<seq<Op>>)
    requires t.Valid()
    requires forall k :: k in t.freeDb ==> 1 <= k < t.txnid
    requires t.pglast > 0 ==> t.pglast in t.freeDb
    modifies t, t.pghead, t.freePgs
    ensures t.Shape() && (t.pghead == old(t.pghead) || fresh(t.pghead)) && (t.freePgs == old(t.freePgs) || fresh(t.freePgs))
    ensures ok ==> Saving(t.V(), Locals(0, 0, 0, 0, 0), old(t.freeDb))
    ensures Suffix(rest, script) && (!ok ==> Stopped(t, rest, script))
    ensures Settles(script, t.txnid) ==> if ok then Calm(t.V(), Locals(0, 0, 0, 0, 0), rest, page, 1, 0) else rest != []
  {
    hide Ok, Saving, Churned, Starved, Quiet, Work;
    ok, rest := true, script;
    if t.pghead != null {
      ghost var v := t.V();
      ok, rest := Write(t, rest);
      if Settles(script, t.txnid) {
        QuietNext(script, Enough(t.txnid));
      }
      if !ok { return; }
      ChurnedFields(v, t.V());
    }
    if t.pghead == null && t.loose != [] {
      DropLoose(t);
    }
    SavingStarts(t.V());
    WorkBound(t.V(), Locals(0, 0, 0, 0, 0), t.freeDb, page, 1);
  }

  // mdb_midl_xappend of every entry of s.
  method AppendAll(ids: array<nat>, s: seq<nat>) returns (r: array<nat>)
    requires ListAt(ids, 0)
    modifies ids
    ensures r == ids || fresh(r)
    ensures ListAt(r, 0) && Ids(r) == old(Ids(ids)) + s
  {
    ghost var was := Ids(ids);
    r := Need(ids, |s|);
    var base := r[0];
    for k := 0 to |s|
      invariant r[0] == base + k && base + |s| < r.Length
      invariant forall x :: 1 <= x <= base ==> r[x] == was[x - 1]
      invariant forall x :: base < x <= base + k ==> r[x] == s[x - base - 1]
    {
      var len := r[0] + 1;
      r[0] := len;
      r[len] := s[k];
    }
    assert Ids(r) == was + s;
  }

  // Put loose page numbers in mt_free_pgs when there is no me_pghead.
  method DropLoose(t: Txn)
    requires t.Valid() && t.pghead == null
    modifies t`loose, t`dirty, t`freePgs, t.freePgs
    ensures t.Valid() && (t.freePgs == old(t.freePgs) || fresh(t.freePgs))
    ensures t.V() == old(t.V()).(loose := [], freed := old(t.V()).freed + old(t.loose), dirty := t.dirty)
    ensures Abs(t.V()) == LooseToFreed(Abs(old(t.V())))
  {
    hide Ok, Abs, LooseToFreed;
    ghost var v := t.V();
    LooseToFreedOk(v);
    t.freePgs := AppendAll(t.freePgs, t.loose);
    t.dirty := t.dirty - Elems(t.loose);
    t.loose := [];
  }

  // Return the loose pages and fill in the reserved records.
  method Finish(t: Txn, l: Locals, ghost db0: map<nat, Record>) returns (r: SaveResult)
    requires t.Shape() && Saving(t.V(), l, db0)
    requires l.pglast == t.pglast && l.freecnt == t.freePgs[0]
    requires l.totalRoom >= (if t.pghead == null then 0 else t.pghead[0]) + |t.loose|
    requires forall k :: k in db0 ==> 1 <= k < t.txnid
    modifies t, t.pghead
    ensures r.Done? || (r.Undefined? && t.maxpg > SORT_MAX)
    ensures r.Done? ==>
              && t.Shape() && t.loose == []
              && Conserved(Abs(t.V().(db := db0)))
              && Saved(Abs(t.V().(db := db0)), RecordSets(t.freeDb))
              && SnapshotPartition(t.tree, RecordSets(t.freeDb), t.nextPgno)
  {
    hide Ok, Saving, Conserved, Saved, SnapshotPartition, Filling, Abs;
    SavingFields(t.V(), l, db0);
    OkLast(t.V());
    if |t.loose| > SORT_MAX {
      ListsBounded(t.V());
      return Undefined;
    }
    if t.loose != [] {
      ReturnLoose(t, l, db0);
    }
    FillStarts(t.V(), l, db0);
    ghost var from := 0;
    if t.pghead != null {
      from := Fill(t, l, db0);
    }
    FillDone(t.V(), l, db0, from);
    r := Done;
  }
}
