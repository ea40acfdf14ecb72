// The imperative allocator and the reader/writer protocol meet: what the methods of
// a write transaction do to the page sets is a sequence of protocol steps, so the
// safety of every run carries over to the pages that mdb_page_alloc returns.
module AllocSteps {
  import opened Basics
  import FreelistSave
  import opened IdSort
  import opened PageState
  import opened Mvcc
  import opened WriteTxn

  // The steps lead from s to t.
  ghost predicate Reaches(s: State, steps: seq<Step>, t: State)
    decreases |steps|
  {
    if steps == [] then s == t
    else Enabled(s, steps[0]) && Reaches(Apply(s, steps[0]), steps[1..], t)
  }

  lemma {:induction false} ReachesInv(s: State, steps: seq<Step>, t: State)
    requires Inv(s) && Reaches(s, steps, t)
    ensures Inv(t)
    decreases |steps|
  {
    hide Inv, Enabled, Apply;
    if steps != [] {
      StepKeepsInv(s, steps[0]);
      ReachesInv(Apply(s, steps[0]), steps[1..], t);
    }
  }

  lemma {:induction false} ReachesMore(s: State, steps: seq<Step>, t: State, step: Step)
    requires Reaches(s, steps, t) && Enabled(t, step)
    ensures Reaches(s, steps + [step], Apply(t, step))
    decreases |steps|
  {
    hide Enabled, Apply;
    var all := steps + [step];
    if steps == [] {
      assert all[1..] == [];
    } else {
      ReachesMore(Apply(s, steps[0]), steps[1..], t, step);
      assert all[1..] == steps[1..] + [step];
    }
  }

  // The least live record, given one.
  lemma {:induction false} FirstLive(ps: Pages, k: nat) returns (m: nat)
    requires Live(ps, k)
    ensures IsNextRecord(ps, m) && m <= k
    decreases k
  {
    if l: nat :| Live(ps, l) && l < k {
      m := FirstLive(ps, l);
    } else {
      m := k;
    }
  }

  lemma FetchApplies(s: State, k: nat)
    requires |s.metas| == 2 && InPhaseWorking(s) && IsNextRecord(s.writer.pages, k) && k < Oldest(s, s.writer.proc)
    ensures Enabled(s, FetchRecord(k)) && Apply(s, FetchRecord(k)) == SetPages(s, Fetch(s.writer.pages, k))
  {
  }

  lemma FetchedNext(a: Pages, b: Pages, limit: nat, k: nat)
    requires Fetched(a, b, limit) && IsNextRecord(a, k) && k <= b.last
    ensures Fetched(Fetch(a, k), b, limit)
  {
    var c := Fetch(a, k);
    assert forall m :: Live(c, m) <==> Live(a, m) && m != k;
    forall p
      ensures p in b.head <==> p in c.head || exists m: nat :: Live(c, m) && m <= b.last && p in c.records[m]
    {
      if p in c.head && p !in a.head {
        assert Live(a, k) && k <= b.last && p in a.records[k];
      }
      if m: nat :| Live(a, m) && m <= b.last && p in a.records[m] {
        assert m != k ==> Live(c, m);
      }
      if m: nat :| Live(c, m) && m <= b.last && p in c.records[m] {
        assert Live(a, m);
      }
    }
  }

  /** Reclaiming is a sequence of FetchRecord steps. */
  lemma {:induction false} FetchedSteps(s: State, b: Pages, limit: nat) returns (steps: seq<Step>)
    requires |s.metas| == 2 && InPhaseWorking(s) && limit <= Oldest(s, s.writer.proc)
    requires Fetched(s.writer.pages, b, limit)
    ensures Reaches(s, steps, SetPages(s, b))
    decreases b.last - s.writer.pages.last
  {
    hide Enabled, Apply;
    var a := s.writer.pages;
    if b.last == a.last {
      assert b.head == a.head;
      assert SetPages(s, b) == s;
      return [];
    }
    var k := FirstLive(a, b.last);
    FetchApplies(s, k);
    FetchedNext(a, b, limit, k);
    var s' := SetPages(s, Fetch(a, k));
    var rest := FetchedSteps(s', b, limit);
    steps := [FetchRecord(k)] + rest;
    assert steps[1..] == rest && SetPages(s', b) == SetPages(s, b);
  }

  lemma TakeApplies(s: State, b: Pages, pg: nat, num: nat) returns (step: Step)
    requires |s.metas| == 2 && InPhaseWorking(s) && TakenFrom(s.writer.pages, b, pg, num)
    ensures Enabled(s, step) && HandedOut(s, step) == RunOf(pg, num)
    ensures Apply(s, step) == Allocate(s, b, RunOf(pg, num))
  {
    if RunOf(pg, num) <= s.writer.pages.head && b == TakeHead(s.writer.pages, RunOf(pg, num)) {
      step := AllocHead(RunOf(pg, num));
    } else {
      step := AllocNew(num);
    }
  }

  lemma LooseApplies(s: State, b: Pages, pg: nat) returns (step: Step)
    requires |s.metas| == 2 && InPhaseWorking(s) && pg in s.writer.pages.loose && b == TakeLoose(s.writer.pages, pg)
    ensures Enabled(s, step) && HandedOut(s, step) == RunOf(pg, 1)
    ensures Apply(s, step) == Allocate(s, b, RunOf(pg, 1))
  {
    step := AllocLoose(pg);
    assert RunOf(pg, 1) == {pg};
  }

  /** Every successful allocation is some FetchRecord steps and then one step that
      hands out exactly the pages returned. */
  lemma AllocatedSteps(s: State, b: Pages, num: nat, r: AllocResult, limit: nat)
    returns (steps: seq<Step>, mid: State, last: Step)
    requires |s.metas| == 2 && InPhaseWorking(s) && limit <= Oldest(s, s.writer.proc)
    requires Allocated(s.writer.pages, b, num, r, limit) && r.Got?
    ensures Reaches(s, steps, mid) && mid.writer.Writer? && mid == SetPages(s, mid.writer.pages)
    ensures Enabled(mid, last) && HandedOut(mid, last) == RunOf(r.pg, num)
    ensures Apply(mid, last) == Allocate(s, b, RunOf(r.pg, num))
  {
    hide Enabled, Apply, HandedOut, Fetched, TakenFrom;
    if num == 1 && r.pg in s.writer.pages.loose && b == TakeLoose(s.writer.pages, r.pg) {
      steps, mid := [], s;
      last := LooseApplies(s, b, r.pg);
    } else {
      var ps :| Fetched(s.writer.pages, ps, limit) && TakenFrom(ps, b, r.pg, num);
      steps := FetchedSteps(s, ps, limit);
      mid := SetPages(s, ps);
      last := TakeApplies(mid, b, r.pg, num);
    }
  }

  /** Copy-on-write of a clean page: an allocation, and then the old page is freed.  The
      page leaves the tree, its copy joins it. */
  lemma TouchSteps(s: State, b: Pages, p: nat, r: AllocResult, limit: nat) returns (steps: seq<Step>, t: State)
    requires |s.metas| == 2 && InPhaseWorking(s) && limit <= Oldest(s, s.writer.proc)
    requires Allocated(s.writer.pages, b, 1, r, limit) && r.Got? && p in b.tree
    ensures Reaches(s, steps, t) && t.writer.Writer? && t.writer.pages == FreePages(b, {p})
    ensures t == s.(writer := t.writer) && p !in t.writer.image && InPhaseWorking(t) && t.writer.proc == s.writer.proc
  {
    hide Enabled, Apply, HandedOut, Allocated;
    var before, mid, last := AllocatedSteps(s, b, 1, r, limit);
    ReachesMore(s, before, mid, last);
    var u := Allocate(s, b, RunOf(r.pg, 1));
    FreeApplies(u, p);
    ReachesMore(s, before + [last], u, Free({p}));
    steps, t := before + [last] + [Free({p})], Apply(u, Free({p}));
  }

  lemma FreeApplies(s: State, p: nat)
    requires |s.metas| == 2 && InPhaseWorking(s) && p in s.writer.pages.tree
    ensures Enabled(s, Free({p})) && Apply(s, Free({p})) == Drop(s, FreePages(s.writer.pages, {p}), {p})
  {
  }

  // ---------------------------------------------------------------- a scan in mid-allocation

  // Steps of the readers, of the scan of the reader table and of the system's write-back: none
  // looks at the writer's pages.
  ghost predicate Quiet(step: Step) {
    || step.ClaimReset? || step.ClaimPid? || step.Load? || step.Store? || step.Validate?
    || step.CopyMeta? || step.Reset? || step.FreeSlot?
    || step.StartScan? || step.ScanPid? || step.ScanTxnid? || step.FinishScan? || step.WriteBack?
  }

  // A quiet step does not notice what was reclaimed before it.
  lemma QuietCommutes(s: State, p: Pages, step: Step)
    requires s.writer.Writer? && p.txnid == s.writer.pages.txnid && Quiet(step) && Enabled(s, step)
    ensures Apply(s, step).writer.Writer? && Apply(s, step).writer.pages == s.writer.pages
    ensures Enabled(SetPages(s, p), step) && Apply(SetPages(s, p), step) == SetPages(Apply(s, step), p)
  {
  }

  lemma {:induction false} QuietRun(s: State, steps: seq<Step>, t: State, p: Pages)
    requires s.writer.Writer? && p.txnid == s.writer.pages.txnid && Reaches(s, steps, t)
    requires forall i :: 0 <= i < |steps| ==> Quiet(steps[i])
    ensures t.writer.Writer? && t.writer.pages == s.writer.pages
    ensures Reaches(SetPages(s, p), steps, SetPages(t, p))
    decreases |steps|
  {
    hide Enabled, Apply, Quiet;
    if steps != [] {
      QuietCommutes(s, p, steps[0]);
      QuietRun(Apply(s, steps[0]), steps[1..], t, p);
    }
  }

  lemma {:induction false} ReachesBoth(s: State, a: seq<Step>, t: State, b: seq<Step>, u: State)
    requires Reaches(s, a, t) && Reaches(t, b, u)
    ensures Reaches(s, a + b, u)
    decreases |a|
  {
    hide Enabled, Apply;
    if a == [] {
      assert a + b == b;
    } else {
      ReachesBoth(Apply(s, a[0]), a[1..], t, b, u);
      assert (a + b)[1..] == a[1..] + b;
    }
  }

  // The records below the mark that was known first are reclaimed first.
  lemma FetchedSplit(a: Pages, b: Pages, known: nat, scanned: nat) returns (p: Pages)
    requires Fetched(a, b, Max(scanned, known))
    ensures Fetched(a, p, known) && Fetched(p, b, scanned) && p.txnid == a.txnid
  {
    if b.last == a.last || b.last < known {
      p := b;
    } else {
      p := FetchBelow(a, known);
      forall x
        ensures x in b.head <==> x in p.head || exists m: nat :: Live(p, m) && m <= b.last && x in p.records[m]
      {
        if m: nat :| Live(a, m) && m <= b.last && x in a.records[m] {
          assert m > p.last ==> Live(p, m);
        }
        if m: nat :| Live(p, m) && m <= b.last && x in p.records[m] {
          assert Live(a, m);
        }
      }
      assert Live(p, b.last);
    }
  }

  // Everything below a mark.
  lemma {:induction false} FetchBelow(a: Pages, mark: nat) returns (p: Pages)
    ensures Fetched(a, p, mark) && (p.last == a.last || p.last < mark)
    ensures forall m: nat :: Live(p, m) ==> mark <= m
    decreases mark - a.last
  {
    if k: nat :| Live(a, k) && k < mark {
      var m := FirstLive(a, k);
      p := FetchBelow(Fetch(a, m), mark);
      FetchedFirst(a, p, m, mark);
    } else {
      p := a;
      FetchedNone(a, mark);
    }
  }

  lemma FetchedFirst(a: Pages, b: Pages, k: nat, limit: nat)
    requires IsNextRecord(a, k) && k < limit && Fetched(Fetch(a, k), b, limit)
    ensures Fetched(a, b, limit)
  {
    var c := Fetch(a, k);
    assert forall m :: Live(c, m) <==> Live(a, m) && m != k;
    forall p
      ensures p in b.head <==> p in a.head || exists m: nat :: Live(a, m) && m <= b.last && p in a.records[m]
    {
      if p in c.head && p !in a.head {
        assert Live(a, k) && k <= b.last && p in a.records[k];
      }
      if m: nat :| Live(c, m) && m <= b.last && p in c.records[m] {
        assert Live(a, m);
      }
      if m: nat :| Live(a, m) && m <= b.last && p in a.records[m] {
        assert m != k ==> Live(c, m);
      }
    }
  }

  /** An allocation that scans the reader table on its way: FetchRecord steps below the mark known
      first, the scan with whatever readers do meanwhile, FetchRecord steps below the new mark, and
      one step that hands out exactly the pages returned. */
  lemma ScannedAllocation(s: State, scan: seq<Step>, t: State, b: Pages, num: nat, r: AllocResult)
    returns (steps: seq<Step>, mid: State, last: Step)
    requires |s.metas| == 2 && InPhaseWorking(s) && InPhaseWorking(t) && t.writer.proc == s.writer.proc && |t.metas| == 2
    requires Reaches(s, scan, t) && forall i :: 0 <= i < |scan| ==> Quiet(scan[i])
    requires Allocated(s.writer.pages, b, num, r, Max(Oldest(t, t.writer.proc), Oldest(s, s.writer.proc))) && r.Got?
    ensures Reaches(s, steps, mid) && mid.writer.Writer? && mid == SetPages(t, mid.writer.pages)
    ensures Enabled(mid, last) && HandedOut(mid, last) == RunOf(r.pg, num)
    ensures Apply(mid, last) == Allocate(t, b, RunOf(r.pg, num))
  {
    hide Enabled, Apply, HandedOut, Fetched, TakenFrom, Reaches, Quiet;
    var a := s.writer.pages;
    QuietRun(s, scan, t, a);
    if num == 1 && r.pg in a.loose && b == TakeLoose(a, r.pg) {
      steps, mid := scan, t;
      last := LooseApplies(t, b, r.pg);
    } else {
      var known, scanned := Oldest(s, s.writer.proc), Oldest(t, t.writer.proc);
      var ps :| Fetched(a, ps, Max(scanned, known)) && TakenFrom(ps, b, r.pg, num);
      var p := FetchedSplit(a, ps, known, scanned);
      var first := FetchedSteps(s, p, known);
      QuietRun(s, scan, t, p);
      ReachesBoth(s, first, SetPages(s, p), scan, SetPages(t, p));
      var second := FetchedSteps(SetPages(t, p), ps, scanned);
      mid := SetPages(t, ps);
      ReachesBoth(s, first + scan, SetPages(t, p), second, mid);
      steps := first + scan + second;
      last := TakeApplies(mid, b, r.pg, num);
    }
  }

  /** mdb_page_alloc never returns a page of a version that a reader may use that is validated by
      the time the pages are handed out, whatever was reclaimed on the way, before a scan of the
      reader table or after it, and whatever keys that was filed under. */
  lemma AllocationAvoidsReaders(s: State, scan: seq<Step>, t: State, b: Pages, num: nat, r: AllocResult, i: nat, k: nat)
    requires Inv(s) && InPhaseWorking(s) && InPhaseWorking(t) && t.writer.proc == s.writer.proc
    requires Reaches(s, scan, t) && forall j :: 0 <= j < |scan| ==> Quiet(scan[j])
    requires Allocated(s.writer.pages, b, num, r, Max(Oldest(t, t.writer.proc), Oldest(s, s.writer.proc))) && r.Got?
    requires i < |t.slots| && Holds(t.slots[i]) && t.slots[i].txnid.Some?
    requires k in t.snaps && t.slots[i].txnid.value <= k
    ensures RunOf(r.pg, num) !! t.snaps[k].image.Keys
  {
    hide Enabled, Apply, HandedOut, Allocated, SnapInv, RecordInv, IntactInv, WriterInv, PhaseInv, Unused, RunOf, Reaches, Quiet;
    ReachesInv(s, scan, t);
    var steps, mid, last := ScannedAllocation(s, scan, t, b, num, r);
    ReachesInv(s, steps, mid);
    SlotAboveLow(t, i);
    forall p | p in RunOf(r.pg, num)
      ensures p !in t.snaps[k].image
    {
      HandedOutUnused(mid, last, p);
      UnusedIn(t.snaps, Keep(mid), p, k);
    }
  }

  lemma SlotAboveLow(s: State, i: nat)
    requires ReaderInv(s) && i < |s.slots| && Holds(s.slots[i]) && s.slots[i].txnid.Some?
    ensures s.low <= s.slots[i].txnid.value
  {
    assert SlotOk(s, i);
  }

  lemma UnusedIn(snaps: map<nat, Snapshot>, from: int, p: nat, k: nat)
    requires Unused(snaps, from, p) && k in snaps && from <= k
    ensures p !in snaps[k].image
  {
  }

  // ---------------------------------------------------------------- the saved free list

  /** A finished mdb_freelist_save enables the commit's SaveFreeList step, and the version that is
      then committed accounts for every page exactly once. */
  lemma SaveEnables(s: State, v: View, db0: map<nat, Record>)
    requires |s.metas| == 2 && InPhaseWorking(s) && s.writer.pages == Abs(v.(db := db0)) && v.dirty != {}
    requires Saved(Abs(v.(db := db0)), RecordSets(v.db)) && SnapshotPartition(v.tree, RecordSets(v.db), v.next)
    ensures Enabled(s, SaveFreeList(RecordSets(v.db)))
    ensures
      var t := Apply(s, SaveFreeList(RecordSets(v.db)));
      && t.writer.Writer? && t.writer.phase == Flushing(RecordSets(v.db), {})
      && (Inv(s) ==> Inv(t))
      && (s.writer.image.Keys == v.tree ==>
            var m := NewSnapshot(t, RecordSets(v.db)); SnapshotPartition(m.image.Keys, m.records, m.next))
  {
    hide Inv, Saved, SnapshotPartition;
    if Inv(s) {
      StepKeepsInv(s, SaveFreeList(RecordSets(v.db)));
    }
  }

  // A protocol state whose writer has these pages.
  ghost predicate Writes(s: State, v: View) {
    |s.metas| == 2 && InPhaseWorking(s) && s.writer.pages == Abs(v)
  }

  /** The save and the step it enables. */
  method SaveForCommit(t: Txn, maxfree1pg: nat, script: seq<seq<FreelistSave.Op>>) returns (r: FreelistSave.SaveResult)
    requires t.Valid()
    requires forall k :: k in t.freeDb ==> 1 <= k < t.txnid
    requires t.pglast > 0 ==> t.pglast in t.freeDb
    modifies t, t.pghead, t.freePgs
    ensures r.Done? ==> t.Shape()
    ensures r.Done? && t.dirty != {} ==>
              forall s: State :: Writes(s, t.V().(db := old(t.freeDb))) ==> Enabled(s, SaveFreeList(RecordSets(t.freeDb)))
    ensures r.Undefined? ==> t.maxpg > SORT_MAX
    ensures r.Failed? && FreelistSave.Settles(script, t.txnid) ==>
              FreelistSave.Starved(t.dirtyRoom, t.maxpg - t.nextPgno, script)
  {
    hide Saved, SnapshotPartition, Conserved, Abs, FreelistSave.Settles, FreelistSave.Starved;
    ghost var db0 := t.freeDb;
    var rest;
    r, rest := FreelistSave.Save(t, maxfree1pg, script);
    if r.Done? && t.dirty != {} {
      forall s: State | Writes(s, t.V().(db := db0))
        ensures Enabled(s, SaveFreeList(RecordSets(t.freeDb)))
      {
        SaveEnables(s, t.V(), db0);
      }
    }
  }

  // ---------------------------------------------------------------- whole transactions

  // A call of a method of the transaction, by what it does to the page sets.
  datatype Call =
    | AllocCall(num: nat, r: AllocResult)
    | TouchCall(p: nat, r: AllocResult)
    | FreeCall(pages: set<nat>)
    | LooseCall(p: nat)
    | ReleaseCall(pages: set<nat>)
    | DropLooseCall

  ghost predicate Made(a: Pages, c: Call, b: Pages, limit: nat) {
    match c
    case AllocCall(num, r) => r.Got? && Allocated(a, b, num, r, limit)
    case TouchCall(p, r) => r.Got? && exists mid :: Allocated(a, mid, 1, r, limit) && p in mid.tree && b == FreePages(mid, {p})
    case FreeCall(pages) => pages <= a.tree && b == FreePages(a, pages)
    case LooseCall(p) => p in a.tree && p in a.dirty && b == Loosen(a, p)
    case ReleaseCall(pages) => pages <= a.tree && pages <= a.dirty && b == Release(a, pages)
    case DropLooseCall => b == LooseToFreed(a)
  }

  // Only the writer, still at work, has changed.
  ghost predicate Worked(s: State, t: State, pages: Pages) {
    InPhaseWorking(t) && t == s.(writer := t.writer) && t.writer.pages == pages && s.writer.Writer? && t.writer.proc == s.writer.proc
  }

  lemma FreeingStep(s: State, c: Call, b: Pages, limit: nat) returns (step: Step)
    requires |s.metas| == 2 && InPhaseWorking(s) && Made(s.writer.pages, c, b, limit) && !c.AllocCall? && !c.TouchCall?
    ensures Enabled(s, step) && Worked(s, Apply(s, step), b)
  {
    step := match c
      case FreeCall(pages) => Free(pages)
      case LooseCall(p) => LoosenPage(p)
      case ReleaseCall(pages) => ReleaseRun(pages)
      case _ => DropLoose;
  }

  lemma CallSteps(s: State, c: Call, b: Pages, limit: nat) returns (steps: seq<Step>, t: State)
    requires |s.metas| == 2 && InPhaseWorking(s) && limit <= Oldest(s, s.writer.proc) && Made(s.writer.pages, c, b, limit)
    ensures Reaches(s, steps, t) && Worked(s, t, b)
  {
    hide Enabled, Apply, HandedOut, Allocated;
    match c
    case AllocCall(num, r) =>
      var before, mid, last := AllocatedSteps(s, b, num, r, limit);
      ReachesMore(s, before, mid, last);
      steps, t := before + [last], Apply(mid, last);
    case TouchCall(p, r) =>
      var mid :| Allocated(s.writer.pages, mid, 1, r, limit) && p in mid.tree && b == FreePages(mid, {p});
      steps, t := TouchSteps(s, mid, p, r, limit);
    case _ =>
      var step := FreeingStep(s, c, b, limit);
      steps, t := [step], Apply(s, step);
      assert [step][1..] == [];
  }

  lemma {:induction false} ReachesTrans(s: State, a: seq<Step>, t: State, b: seq<Step>, u: State)
    requires Reaches(s, a, t) && Reaches(t, b, u)
    ensures Reaches(s, a + b, u)
    decreases |a|
  {
    hide Enabled, Apply;
    if a == [] {
      assert a + b == b;
    } else {
      ReachesTrans(Apply(s, a[0]), a[1..], t, b, u);
      assert (a + b)[1..] == a[1..] + b;
    }
  }

  /** Any sequence of calls of a write transaction, below one low-water mark, is a run of the protocol
      that changes nothing but the writer. */
  lemma {:induction false} TransactionSteps(s: State, calls: seq<Call>, pss: seq<Pages>, limit: nat)
    returns (steps: seq<Step>, t: State)
    requires |s.metas| == 2 && InPhaseWorking(s) && limit <= Oldest(s, s.writer.proc)
    requires |pss| == |calls| + 1 && pss[0] == s.writer.pages
    requires forall i :: 0 <= i < |calls| ==> Made(pss[i], calls[i], pss[i + 1], limit)
    ensures Reaches(s, steps, t) && Worked(s, t, pss[|calls|])
    decreases |calls|
  {
    hide Enabled, Apply, Made;
    if calls == [] {
      steps, t := [], s;
    } else {
      var first, u := CallSteps(s, calls[0], pss[1], limit);
      var rest;
      assert forall i :: 0 <= i < |calls[1..]| ==> Made(pss[1..][i], calls[1..][i], pss[1..][i + 1], limit);
      rest, t := TransactionSteps(u, calls[1..], pss[1..], limit);
      ReachesTrans(s, first, u, rest, t);
      steps := first + rest;
    }
  }
}
