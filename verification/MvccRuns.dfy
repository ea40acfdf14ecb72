// What whole runs of the protocol leave behind, told from their steps: what each
// committed version contains, what a reader of it finds in the map, and what the scan
// of the reader table yields (client/mdb.c: mdb_txn_renew0, mdb_page_flush,
// mdb_env_write_meta, mdb_find_oldest).
module MvccRuns {
  import opened Basics
  import opened PageState
  import opened Mvcc

  // --------------------------------------------------------- one transaction

  // The transaction begun by step a writes its meta page in step b.
  ghost predicate Commits(trace: seq<State>, steps: seq<Step>, a: nat, b: nat) {
    && IsRun(trace, steps) && a < b < |steps| && steps[a].BeginTxn? && steps[b].WriteMeta?
    && forall i :: a < i < b ==> !steps[i].BeginTxn?
  }

  // New pages asked for between the steps a and i.
  ghost function Extended(steps: seq<Step>, a: nat, i: nat): nat
    requires i <= |steps|
    decreases i
  {
    if i <= a + 1 then 0
    else Extended(steps, a, i - 1) + if steps[i - 1].AllocNew? then steps[i - 1].num else 0
  }

  // What step i of the transaction does to page p, when the file ended at page
  // `next` as it began.
  datatype Effect = Leaves | Gives | Takes | Sets(content: nat)

  ghost function EffectOn(steps: seq<Step>, a: nat, next: nat, i: nat, p: nat): Effect
    requires a < i < |steps|
  {
    match steps[i]
    case AllocHead(pages) => if p in pages then Gives else Leaves
    case AllocNew(num) => if next + Extended(steps, a, i) <= p < next + Extended(steps, a, i) + num then Gives else Leaves
    case AllocLoose(q) => if p == q then Gives else Leaves
    case Free(pages) => if p in pages then Takes else Leaves
    case LoosenPage(q) => if p == q then Takes else Leaves
    case ReleaseRun(pages) => if p in pages then Takes else Leaves
    case Modify(q, content) => if p == q then Sets(content) else Leaves
    case _ => Leaves
  }

  // Step j is the last one between a and b that does something to page p, or there is
  // none and j is a.
  ghost predicate LastEffect(steps: seq<Step>, a: nat, b: nat, next: nat, p: nat, j: nat) {
    && a <= j < b <= |steps| && (j > a ==> EffectOn(steps, a, next, j, p) != Leaves)
    && forall i :: j < i < b ==> EffectOn(steps, a, next, i, p) == Leaves
  }

  // There is one for every page.
  lemma {:induction false} SomeLast(steps: seq<Step>, a: nat, b: nat, next: nat, p: nat) returns (j: nat)
    requires a < b <= |steps|
    ensures LastEffect(steps, a, b, next, p, j)
    decreases b
  {
    if b == a + 1 {
      j := a;
    } else if EffectOn(steps, a, next, b - 1, p) != Leaves {
      j := b - 1;
    } else {
      j := SomeLast(steps, a, b - 1, next, p);
    }
  }

  // What page p holds after step j, if it was what `before` shows when the transaction
  // began; None for a page that is not in use.
  ghost function ContentAt(before: map<nat, nat>, steps: seq<Step>, a: nat, next: nat, p: nat, j: nat): Option<nat>
    requires a <= j < |steps|
  {
    if j == a then if p in before then Some(before[p]) else None
    else
      match EffectOn(steps, a, next, j, p)
      case Gives => Some(0)
      case Sets(content) => Some(content)
      case _ => None
  }

  ghost predicate Shows(image: map<nat, nat>, p: nat, content: Option<nat>) {
    (p in image <==> content.Some?) && (p in image ==> image[p] == content.value)
  }

  // ------------------------------------------------------ the writer goes on

  lemma NoWriterStays(s: State, step: Step)
    requires Enabled(s, step) && s.writer.NoWriter? && !step.BeginTxn?
    ensures Apply(s, step).writer.NoWriter?
  {
    hide Saved, IsNextRecord;
  }

  // As long as the meta page is to be written the transaction is under way.
  lemma {:induction false} UnderWay(trace: seq<State>, steps: seq<Step>, a: nat, b: nat, i: nat)
    requires Commits(trace, steps, a, b) && a < i <= b
    ensures trace[i].writer.Writer?
    decreases b - i
  {
    hide Init, Apply;
    if i < b {
      UnderWay(trace, steps, a, b, i + 1);
      if trace[i].writer.NoWriter? {
        NoWriterStays(trace[i], steps[i]);
      }
    }
  }

  // One step inside a transaction, at page p.
  lemma StepAt(s: State, step: Step)
    requires Enabled(s, step) && s.writer.Writer? && Apply(s, step).writer.Writer? && !step.BeginTxn?
    ensures var t := Apply(s, step);
      && t.txnid == s.txnid && t.writer.pages.txnid == s.writer.pages.txnid
      && t.writer.pages.next == s.writer.pages.next + (if step.AllocNew? then step.num else 0)
  {
    hide Saved, IsNextRecord, RunOf, NewSnapshot, PickMeta;
  }

  lemma ImageAt(s: State, step: Step, steps: seq<Step>, a: nat, next: nat, i: nat, p: nat)
    requires Enabled(s, step) && s.writer.Writer? && Apply(s, step).writer.Writer? && !step.BeginTxn?
    requires a < i < |steps| && steps[i] == step && s.writer.pages.next == next + Extended(steps, a, i)
    ensures var w, v := s.writer.image, Apply(s, step).writer.image;
      match EffectOn(steps, a, next, i, p)
      case Leaves => (p in v <==> p in w) && (p in w ==> v[p] == w[p])
      case Gives => Shows(v, p, Some(0))
      case Takes => Shows(v, p, None)
      case Sets(content) => Shows(v, p, Some(content))
  {
    hide Saved, IsNextRecord, NewSnapshot, PickMeta, Fetch, TakeHead, TakeNew, TakeLoose, FreePages, Loosen, Release, LooseToFreed;
  }

  lemma {:induction false} NextIs(trace: seq<State>, steps: seq<Step>, a: nat, b: nat, i: nat)
    requires Commits(trace, steps, a, b) && a < i <= b
    ensures trace[i].writer.Writer? && trace[i].txnid == trace[a].txnid && trace[i].writer.pages.txnid == trace[a].txnid + 1
    ensures |trace[a].metas| == 2 && trace[i].writer.pages.next == trace[a].metas[trace[a].txnid % 2].next + Extended(steps, a, i)
    decreases i
  {
    hide Init, Apply;
    UnderWay(trace, steps, a, b, i);
    if i == a + 1 {
      Begins(trace[a], steps[a]);
    } else {
      NextIs(trace, steps, a, b, i - 1);
      StepAt(trace[i - 1], steps[i - 1]);
    }
  }

  lemma Begins(s: State, step: Step)
    requires Enabled(s, step) && step.BeginTxn?
    ensures var t, m := Apply(s, step), s.metas[s.txnid % 2];
      && t.writer.Writer? && t.txnid == s.txnid && t.writer.pages.txnid == s.txnid + 1
      && t.writer.image == m.image && t.writer.pages.next == m.next
  {
  }

  // The writer's pages at any point of the transaction.
  lemma {:induction false} WriterShows(trace: seq<State>, steps: seq<Step>, a: nat, b: nat, i: nat, p: nat, j: nat)
    requires Commits(trace, steps, a, b) && a < i <= b && |trace[a].metas| == 2
    requires LastEffect(steps, a, i, trace[a].metas[trace[a].txnid % 2].next, p, j)
    ensures trace[i].writer.Writer?
    ensures var m := trace[a].metas[trace[a].txnid % 2]; Shows(trace[i].writer.image, p, ContentAt(m.image, steps, a, m.next, p, j))
    decreases i
  {
    hide Init, Apply, EffectOn;
    var m := trace[a].metas[trace[a].txnid % 2];
    UnderWay(trace, steps, a, b, i);
    if i == a + 1 {
      Begins(trace[a], steps[a]);
    } else {
      NextIs(trace, steps, a, b, i - 1);
      ImageAt(trace[i - 1], steps[i - 1], steps, a, m.next, i - 1, p);
      if j < i - 1 {
        WriterShows(trace, steps, a, b, i - 1, p, j);
      }
    }
  }

  // ----------------------------------------------------- committed versions

  // The version that a transaction begun now starts from.
  ghost function Current(s: State): Snapshot {
    if s.txnid in s.snaps then s.snaps[s.txnid] else EMPTY
  }

  lemma CurrentIs(s: State)
    requires Inv(s) && s.writer.NoWriter?
    ensures |s.metas| == 2 && s.metas[s.txnid % 2] == Current(s) && Current(s).id == s.txnid
  {
    hide SnapInv, ReaderInv, RecordInv, IntactInv, PhaseInv;
  }

  lemma MetaHolds(s: State)
    requires Enabled(s, WriteMeta)
    ensures var id, t := s.writer.pages.txnid, Apply(s, WriteMeta);
      id in t.snaps && t.snaps[id].image == s.writer.image && t.snaps[id].next == s.writer.pages.next
  {
  }

  /** A committed version, page by page, from the steps of its transaction alone: a page
      holds what the last Modify after its last allocation put there, the initial content
      if there was none, and the previous version's content if the transaction did not
      touch it; pages it gave up are not part of it. */
  lemma CommittedContent(trace: seq<State>, steps: seq<Step>, a: nat, b: nat, p: nat, j: nat)
    requires Commits(trace, steps, a, b) && LastEffect(steps, a, b, Current(trace[a]).next, p, j)
    ensures var id, prev := trace[a].txnid + 1, Current(trace[a]);
      && prev.id == trace[a].txnid && id in trace[b + 1].snaps
      && Shows(trace[b + 1].snaps[id].image, p, ContentAt(prev.image, steps, a, prev.next, p, j))
      && trace[b + 1].snaps[id].next == prev.next + Extended(steps, a, b)
  {
    hide Init, Inv, Apply, EffectOn, ContentAt, Current, Shows;
    RunInv(trace, steps, a);
    CurrentIs(trace[a]);
    NextIs(trace, steps, a, b, b);
    WriterShows(trace, steps, a, b, b, p, j);
    MetaHolds(trace[b]);
  }

  /** A reader of that version finds this content in the map, for as long as it works
      on it. */
  lemma ReaderFinds(trace: seq<State>, steps: seq<Step>, a: nat, b: nat, p: nat, j: nat, n: nat, i: nat)
    requires Commits(trace, steps, a, b) && b < n < |trace|
    requires LastEffect(steps, a, b, Current(trace[a]).next, p, j)
    requires i < |trace[n].slots| && trace[n].slots[i].pc == Reading(trace[a].txnid + 1)
    ensures var content := ContentAt(Current(trace[a]).image, steps, a, Current(trace[a]).next, p, j);
      content.Some? ==> p in trace[n].cache && trace[n].cache[p] == content.value
  {
    hide Init, Inv, EffectOn, ContentAt, Current;
    var id := trace[a].txnid + 1;
    CommittedContent(trace, steps, a, b, p, j);
    ReaderSeesItsVersion(trace, steps, n, n, i);
    VersionsFixed(trace, steps, b + 1, n, id);
  }

  // ------------------------------------------------------------------ the scan

  // mdb_find_oldest from step a to step b.
  ghost predicate Scans(trace: seq<State>, steps: seq<Step>, a: nat, b: nat) {
    && IsRun(trace, steps) && a < b < |steps| && steps[a].StartScan? && steps[b].FinishScan?
    && forall i :: a < i < b ==> !steps[i].StartScan?
  }

  ghost predicate InScan(s: State) {
    s.writer.Writer? && s.writer.phase.Scanning?
  }

  // The id that step i reads from the reader table, if it does.
  ghost function IdRead(s: State, step: Step): Option<nat> {
    if step.ScanTxnid? && InScan(s) && 0 < s.writer.phase.i <= |s.slots| then s.slots[s.writer.phase.i - 1].txnid else None
  }

  lemma OtherPhaseStays(s: State, step: Step)
    requires Enabled(s, step) && !InScan(s) && !step.StartScan?
    ensures !InScan(Apply(s, step))
  {
    hide Saved, IsNextRecord, RunOf, NewSnapshot, PickMeta;
  }

  lemma {:induction false} ScanUnderWay(trace: seq<State>, steps: seq<Step>, a: nat, b: nat, i: nat)
    requires Scans(trace, steps, a, b) && a < i <= b
    ensures InScan(trace[i])
    decreases b - i
  {
    hide Init, Apply;
    if i < b {
      ScanUnderWay(trace, steps, a, b, i + 1);
      if !InScan(trace[i]) {
        OtherPhaseStays(trace[i], steps[i]);
      }
    }
  }

  // One step inside a scan.
  lemma ScanStep(s: State, step: Step)
    requires Enabled(s, step) && InScan(s) && InScan(Apply(s, step))
    ensures var t := Apply(s, step);
      && t.writer == s.writer.(phase := t.writer.phase) && t.txnid == s.txnid
      && (IdRead(s, step).None? ==> t.writer.phase.oldest == s.writer.phase.oldest)
      && (IdRead(s, step).Some? ==> t.writer.phase.oldest == Min(s.writer.phase.oldest, IdRead(s, step).value))
      && (t.writer.phase.i == s.writer.phase.i
          || (t.writer.phase.i + 1 == s.writer.phase.i && Passed(s, step, t.writer.phase.i)))
  {
    hide Saved, IsNextRecord, RunOf, NewSnapshot, PickMeta;
  }

  // The step finds slot j unused or reads its id.
  ghost predicate Passed(s: State, step: Step, j: nat) {
    && InScan(s) && s.writer.phase.i == j + 1 && j < |s.slots|
    && ((step.ScanPid? && !s.slots[j].pid) || step.ScanTxnid?)
  }

  lemma ScanStarts(s: State)
    requires Enabled(s, StartScan)
    ensures var t := Apply(s, StartScan);
      && InScan(t) && t.writer == s.writer.(phase := t.writer.phase) && t.txnid == s.txnid
      && t.writer.phase.i == s.numReaders && t.writer.phase.oldest == s.writer.pages.txnid - 1
  {
  }

  // The mark at any point of the scan.
  lemma {:induction false} MarkSoFar(trace: seq<State>, steps: seq<Step>, a: nat, b: nat, i: nat)
    requires Scans(trace, steps, a, b) && a < i <= b
    ensures InScan(trace[i]) && trace[a].writer.Writer? && trace[i].writer == trace[a].writer.(phase := trace[i].writer.phase)
    ensures trace[i].writer.phase.oldest < trace[a].writer.pages.txnid
    ensures forall k :: a < k < i && IdRead(trace[k], steps[k]).Some? ==>
              trace[i].writer.phase.oldest <= IdRead(trace[k], steps[k]).value
    ensures trace[i].writer.phase.oldest + 1 == trace[a].writer.pages.txnid
            || exists k :: a < k < i && IdRead(trace[k], steps[k]) == Some(trace[i].writer.phase.oldest)
    decreases i
  {
    hide Init, Apply, IdRead;
    ScanUnderWay(trace, steps, a, b, i);
    if i == a + 1 {
      ScanStarts(trace[a]);
    } else {
      MarkSoFar(trace, steps, a, b, i - 1);
      ScanStep(trace[i - 1], steps[i - 1]);
    }
  }

  /** The low-water mark a scan yields: the smallest of the ids it read and of the id
      before the writer's. */
  lemma ScanMark(trace: seq<State>, steps: seq<Step>, a: nat, b: nat)
    requires Scans(trace, steps, a, b)
    ensures trace[b].writer.Writer? && trace[a].writer.Writer? && trace[b].writer.proc == trace[a].writer.proc
    ensures var mark := Oldest(trace[b + 1], trace[b].writer.proc);
      && mark < trace[a].writer.pages.txnid
      && (forall k :: a < k < b && IdRead(trace[k], steps[k]).Some? ==> mark <= IdRead(trace[k], steps[k]).value)
      && (mark + 1 == trace[a].writer.pages.txnid
          || exists k :: a < k < b && IdRead(trace[k], steps[k]) == Some(mark))
  {
    hide Init, IdRead;
    MarkSoFar(trace, steps, a, b, b);
  }

  /** With no id in the reader table during the scan it is the id before the writer's. */
  lemma NoReaders(trace: seq<State>, steps: seq<Step>, a: nat, b: nat)
    requires Scans(trace, steps, a, b)
    requires forall k, i :: a < k < b && 0 <= i < |trace[k].slots| ==> trace[k].slots[i].txnid.None?
    ensures trace[b].writer.Writer? && Oldest(trace[b + 1], trace[b].writer.proc) == trace[b].writer.pages.txnid - 1
  {
    hide Init, Apply;
    MarkSoFar(trace, steps, a, b, b);
    ScanMark(trace, steps, a, b);
  }

  lemma {:induction false} SlotsPassed(trace: seq<State>, steps: seq<Step>, a: nat, b: nat, i: nat, j: nat)
    requires Scans(trace, steps, a, b) && a < i <= b && j < trace[a].numReaders
    ensures InScan(trace[i])
    ensures trace[i].writer.phase.i <= j ==> exists k :: a < k < i && Passed(trace[k], steps[k], j)
    decreases i
  {
    hide Init, Apply, Passed;
    ScanUnderWay(trace, steps, a, b, i);
    if i == a + 1 {
      ScanStarts(trace[a]);
    } else {
      SlotsPassed(trace, steps, a, b, i - 1, j);
      ScanStep(trace[i - 1], steps[i - 1]);
    }
  }

  /** Every slot in use as the scan begins is found unused or has its id read. */
  lemma EverySlotScanned(trace: seq<State>, steps: seq<Step>, a: nat, b: nat, j: nat)
    requires Scans(trace, steps, a, b) && j < trace[a].numReaders
    ensures exists k :: a < k < b && Passed(trace[k], steps[k], j)
  {
    hide Init, Apply, Passed;
    SlotsPassed(trace, steps, a, b, b, j);
  }

  // ------------------------------------------------------ what a slot holds

  // The steps that set or clear the id in slot i.
  ghost predicate Touches(step: Step, i: nat) {
    step == Store(i) || step == Reset(i) || step == ClaimReset(i) || step.Crash?
  }

  ghost predicate ReaderStep(step: Step) {
    || step.ClaimReset? || step.ClaimPid? || step.Load? || step.Store? || step.Validate? || step.CopyMeta? || step.Reset?
    || step.FreeSlot? || step.Crash?
  }

  lemma OtherSlotsStay(s: State, step: Step)
    requires Enabled(s, step) && !ReaderStep(step)
    ensures Apply(s, step).slots == s.slots
  {
    hide Saved, IsNextRecord, RunOf, NewSnapshot, PickMeta, Begin, Fetch, TakeHead, TakeNew, TakeLoose, FreePages, Loosen,
      Release, LooseToFreed;
  }

  lemma SlotStep(s: State, step: Step, i: nat)
    requires Enabled(s, step) && i < |s.slots|
    ensures var t := Apply(s, step);
      && |t.slots| == |s.slots|
      && (!Touches(step, i) ==> t.slots[i].txnid == s.slots[i].txnid)
      && (step == Store(i) ==> s.slots[i].pc.Loaded? && t.slots[i].txnid == Some(s.slots[i].pc.seen))
      && (Touches(step, i) && step != Store(i) ==> t.slots[i].txnid == None)
      && (t.slots[i].pc.Loaded? ==> if step == Load(i) then t.slots[i].pc == Loaded(s.txnid) else t.slots[i].pc == s.slots[i].pc)
  {
    hide Saved, IsNextRecord, RunOf, NewSnapshot, PickMeta;
    if !ReaderStep(step) {
      hide Apply;
      OtherSlotsStay(s, step);
    }
  }

  lemma {:induction false} SlotsStay(trace: seq<State>, steps: seq<Step>, n: nat)
    requires IsRun(trace, steps) && n < |trace|
    ensures |trace[n].slots| == |trace[0].slots|
    decreases n
  {
    hide Init, Apply, Enabled;
    if n > 0 {
      SlotsStay(trace, steps, n - 1);
      if |trace[0].slots| > 0 {
        SlotStep(trace[n - 1], steps[n - 1], 0);
      } else {
        NoSlots(trace[n - 1], steps[n - 1]);
      }
    }
  }

  lemma NoSlots(s: State, step: Step)
    requires Enabled(s, step) && |s.slots| == 0
    ensures |Apply(s, step).slots| == 0
  {
    hide Saved, IsNextRecord, RunOf, NewSnapshot, PickMeta;
    if !ReaderStep(step) {
      hide Apply;
      OtherSlotsStay(s, step);
    }
  }

  // A reader that loaded the id of the environment in step j stores it.
  lemma {:induction false} LoadedId(trace: seq<State>, steps: seq<Step>, i: nat, j: nat, k: nat)
    requires IsRun(trace, steps) && i < |trace[0].slots| && j < k < |trace| && steps[j] == Load(i)
    requires (forall m :: j < m < k ==> steps[m] != Load(i)) && i < |trace[k].slots| && trace[k].slots[i].pc.Loaded?
    ensures trace[k].slots[i].pc == Loaded(trace[j].txnid)
    decreases k
  {
    hide Init, Apply, Enabled;
    SlotsStay(trace, steps, k - 1);
    SlotStep(trace[k - 1], steps[k - 1], i);
    if k > j + 1 {
      LoadedId(trace, steps, i, j, k - 1);
    }
  }

  /** From the store of an id until the reader resets its slot, another one claims it or a crash, the
      slot holds the id that was current when the reader loaded it. */
  lemma {:induction false} SlotHolds(trace: seq<State>, steps: seq<Step>, i: nat, j: nat, k: nat, n: nat)
    requires IsRun(trace, steps) && i < |trace[0].slots| && j < k < n < |trace| && steps[j] == Load(i) && steps[k] == Store(i)
    requires (forall m :: j < m < k ==> steps[m] != Load(i)) && forall m :: k < m < n ==> !Touches(steps[m], i)
    ensures i < |trace[n].slots| && trace[n].slots[i].txnid == Some(trace[j].txnid)
    decreases n
  {
    hide Init, Apply, Enabled, Touches;
    SlotsStay(trace, steps, n);
    SlotsStay(trace, steps, n - 1);
    SlotStep(trace[n - 1], steps[n - 1], i);
    if n == k + 1 {
      LoadedId(trace, steps, i, j, k);
    } else {
      SlotHolds(trace, steps, i, j, k, n - 1);
    }
  }

  // Every id stored in slot i before step n has been cleared since.
  ghost predicate Idle(steps: seq<Step>, i: nat, n: nat)
    requires n <= |steps|
  {
    forall k :: 0 <= k < n && steps[k] == Store(i) ==> Cleared(steps, i, k, n)
  }

  ghost predicate Cleared(steps: seq<Step>, i: nat, k: nat, n: nat)
    requires n <= |steps|
  {
    exists m :: k < m < n && Touches(steps[m], i) && steps[m] != Store(i)
  }

  lemma {:induction false} IdleIsEmpty(trace: seq<State>, steps: seq<Step>, i: nat, n: nat)
    requires IsRun(trace, steps) && i < |trace[0].slots| && n < |trace| && Idle(steps, i, n)
    ensures i < |trace[n].slots| && trace[n].slots[i].txnid.None?
    decreases n
  {
    hide Apply, Enabled, Touches;
    SlotsStay(trace, steps, n);
    if n > 0 {
      SlotsStay(trace, steps, n - 1);
      SlotStep(trace[n - 1], steps[n - 1], i);
      if !Touches(steps[n - 1], i) {
        forall k | 0 <= k < n - 1 && steps[k] == Store(i)
          ensures Cleared(steps, i, k, n - 1)
        {
          assert Cleared(steps, i, k, n);
        }
        IdleIsEmpty(trace, steps, i, n - 1);
      }
    }
  }

  // The steps that give up slot i.
  ghost predicate GivesUp(step: Step, i: nat) {
    step == FreeSlot(i) || step == ClaimReset(i) || step.Crash?
  }

  ghost predicate Owned(steps: seq<Step>, i: nat, n: nat)
    requires n <= |steps|
  {
    exists k :: 0 <= k < n && steps[k] == ClaimPid(i) && Kept(steps, i, k, n)
  }

  ghost predicate Kept(steps: seq<Step>, i: nat, k: nat, n: nat)
    requires n <= |steps|
  {
    forall m :: k < m < n ==> !GivesUp(steps[m], i)
  }

  lemma PidStep(s: State, step: Step, i: nat)
    requires Enabled(s, step) && i < |s.slots|
    ensures var t := Apply(s, step);
      |t.slots| == |s.slots| && t.slots[i].pid == if step == ClaimPid(i) then true else s.slots[i].pid && !GivesUp(step, i)
  {
    hide Saved, IsNextRecord, RunOf, NewSnapshot, PickMeta;
    if !ReaderStep(step) {
      hide Apply;
      OtherSlotsStay(s, step);
    }
  }

  /** A slot is taken exactly from the claim of a reader until it is freed, or a crash. */
  lemma {:induction false} SlotTaken(trace: seq<State>, steps: seq<Step>, i: nat, n: nat)
    requires IsRun(trace, steps) && i < |trace[0].slots| && n < |trace|
    ensures i < |trace[n].slots| && (trace[n].slots[i].pid <==> Owned(steps, i, n))
    decreases n
  {
    hide Apply, Enabled, GivesUp;
    SlotsStay(trace, steps, n);
    if n > 0 {
      SlotTaken(trace, steps, i, n - 1);
      PidStep(trace[n - 1], steps[n - 1], i);
      OwnedNext(steps, i, n);
    }
  }

  lemma OwnedNext(steps: seq<Step>, i: nat, n: nat)
    requires 0 < n <= |steps|
    ensures Owned(steps, i, n) <==> steps[n - 1] == ClaimPid(i) || (Owned(steps, i, n - 1) && !GivesUp(steps[n - 1], i))
  {
    if Owned(steps, i, n - 1) && !GivesUp(steps[n - 1], i) {
      var k :| 0 <= k < n - 1 && steps[k] == ClaimPid(i) && Kept(steps, i, k, n - 1);
      assert Kept(steps, i, k, n);
    }
    if Owned(steps, i, n) && steps[n - 1] != ClaimPid(i) {
      var k :| 0 <= k < n && steps[k] == ClaimPid(i) && Kept(steps, i, k, n);
      assert Kept(steps, i, k, n - 1);
    }
    if steps[n - 1] == ClaimPid(i) {
      assert Kept(steps, i, n - 1, n);
    }
  }

  /** Once all readers have reset their slots, and none stores an id during the scan, the mark is one
      less than the id of the transaction. */
  lemma ReadersGone(trace: seq<State>, steps: seq<Step>, a: nat, b: nat)
    requires Scans(trace, steps, a, b)
    requires forall k, i :: a < k < b && 0 <= i < |trace[0].slots| ==> Idle(steps, i, k)
    ensures trace[b].writer.Writer? && Oldest(trace[b + 1], trace[b].writer.proc) == trace[b].writer.pages.txnid - 1
  {
    hide Init, Apply, Enabled, Idle, Oldest;
    forall k, i | a < k < b && 0 <= i < |trace[k].slots|
      ensures trace[k].slots[i].txnid.None?
    {
      SlotsStay(trace, steps, k);
      IdleIsEmpty(trace, steps, i, k);
    }
    NoReaders(trace, steps, a, b);
  }

  // ------------------------------------------------------ the map and the file

  ghost function At(pages: map<nat, nat>, p: nat): Option<nat> {
    if p in pages then Some(pages[p]) else None
  }

  // The steps that change page p in the map, and what they put there.
  ghost predicate MapStep(step: Step, p: nat) {
    (step.FlushPage? && step.p == p) || (step.WriteOut? && step.p == p) || step.Crash?
  }

  ghost function PutBy(s: State, step: Step, p: nat): Option<nat>
    requires MapStep(step, p)
  {
    match step
    case FlushPage(_) => if s.writer.Writer? then At(s.writer.image, p) else None
    case WriteOut(_, content) => Some(content)
    case Crash => At(s.durable, p)
  }

  // The steps that bring page p to the disk.
  ghost predicate FileStep(s: State, step: Step, p: nat) {
    p in s.cache && (step.Sync? || (step.WriteBack? && step.p == p))
  }

  ghost predicate WritingStep(step: Step) {
    step.FlushPage? || step.WriteOut? || step.Sync? || step.WriteBack? || step.Crash?
  }

  lemma OtherPagesStay(s: State, step: Step)
    requires Enabled(s, step) && !WritingStep(step)
    ensures Apply(s, step).cache == s.cache && Apply(s, step).durable == s.durable
  {
    hide Saved, IsNextRecord, RunOf, NewSnapshot, PickMeta, Begin, Fetch, TakeHead, TakeNew, TakeLoose, FreePages, Loosen,
      Release, LooseToFreed;
  }

  lemma StoreStep(s: State, step: Step, p: nat)
    requires Enabled(s, step)
    ensures var t := Apply(s, step);
      && At(t.cache, p) == (if MapStep(step, p) then PutBy(s, step, p) else At(s.cache, p))
      && At(t.durable, p) == (if FileStep(s, step, p) then At(s.cache, p) else At(s.durable, p))
  {
    hide Saved, IsNextRecord, RunOf, NewSnapshot, PickMeta;
    if !WritingStep(step) {
      hide Apply;
      OtherPagesStay(s, step);
    }
  }

  /** A page of the map holds what the last write of it put there; after a crash, what is in the file. */
  lemma {:induction false} MapHolds(trace: seq<State>, steps: seq<Step>, p: nat, k: nat, n: nat)
    requires IsRun(trace, steps) && k < n < |trace| && MapStep(steps[k], p) && forall m :: k < m < n ==> !MapStep(steps[m], p)
    ensures At(trace[n].cache, p) == PutBy(trace[k], steps[k], p)
    decreases n
  {
    hide Init, Apply, Enabled, At, PutBy, MapStep, FileStep;
    StoreStep(trace[n - 1], steps[n - 1], p);
    if n > k + 1 {
      MapHolds(trace, steps, p, k, n - 1);
    }
  }

  /** A page of the file holds what the map showed when it was last written back or synced. */
  lemma {:induction false} FileHolds(trace: seq<State>, steps: seq<Step>, p: nat, k: nat, n: nat)
    requires IsRun(trace, steps) && k < n < |trace|
    requires FileStep(trace[k], steps[k], p) && forall m :: k < m < n ==> !FileStep(trace[m], steps[m], p)
    ensures At(trace[n].durable, p) == At(trace[k].cache, p)
    decreases n
  {
    hide Init, Apply, Enabled, At, PutBy, MapStep, FileStep;
    StoreStep(trace[n - 1], steps[n - 1], p);
    if n > k + 1 {
      FileHolds(trace, steps, p, k, n - 1);
    }
  }
}
