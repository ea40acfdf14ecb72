// The reader/writer protocol of the store, as a state machine over its atomic
// steps (client/mdb.c: mdb_txn_renew0, mdb_find_oldest, mdb_page_alloc,
// mdb_freelist_save, mdb_page_flush, mdb_env_write_meta, mdb_txn_end).
//
// Any number of readers and one writer at a time interleave freely.  Each reader
// loads, publishes, validates and copies in separate steps; the writer scans the
// reader table one word at a time and may use a low-water mark cached by its
// process long ago.  A crash may come between any two steps.
module Mvcc {
  import opened Basics
  import opened PageState


  // ------------------------------------------------------------------ state

  // A committed version: the contents of its pages and its freeDB.  `low` is a
  // history variable, the low-water mark of readers when it was committed.
  datatype Snapshot = Snapshot(id: nat, image: map<nat, nat>, records: map<nat, set<nat>>, next: nat, low: nat)

  datatype ReaderPc =
    | Unclaimed           // mr_pid is 0
    | Claiming            // slot reset, mr_pid not yet set
    | Registered          // owns the slot, no transaction
    | Loaded(seen: nat)   // has read mti_txnid, not yet written mr_txnid
    | Published           // mr_txnid written, not yet compared
    | Validated           // the comparison succeeded; the meta page is not yet copied
    | Reading(snap: nat)  // works on the snapshot whose meta page it copied

  // txnid None stands for (txnid_t)-1, the greatest id.
  datatype Slot = Slot(pid: bool, txnid: Option<nat>, pc: ReaderPc)

  datatype Phase =
    | Working
    | Scanning(i: nat, oldest: nat, sawPid: bool)                  // in mdb_find_oldest
    | Flushing(after: map<nat, set<nat>>, flushed: set<nat>)       // the free list is saved
    | Synced(after: map<nat, set<nat>>)
    | MetaWritten

  datatype Writer = NoWriter | Writer(proc: nat, phase: Phase, pages: Pages, image: map<nat, nat>)

  datatype State = State(
    slots: seq<Slot>,
    numReaders: nat,            // mti_numreaders
    txnid: nat,                 // mti_txnid
    pgoldest: map<nat, nat>,    // me_pgoldest of each process
    metas: seq<Snapshot>,       // the two meta pages
    cache: map<nat, nat>,       // page contents as the map shows them
    durable: map<nat, nat>,     // page contents that survive a crash
    writer: Writer,
    snaps: map<nat, Snapshot>,  // history: every committed version
    low: nat)                   // history: the highest low-water mark computed so far

  function Oldest(s: State, proc: nat): (t: nat) {
    if proc in s.pgoldest then s.pgoldest[proc] else 0
  }

  // mdb_env_pick_meta
  function PickMeta(s: State): (m: Snapshot)
    requires |s.metas| == 2
    ensures m in s.metas && forall k :: 0 <= k < 2 ==> s.metas[k].id <= m.id
  {
    s.metas[if s.metas[0].id < s.metas[1].id then 1 else 0]
  }

  const EMPTY := Snapshot(0, map[], map[], NUM_METAS, 0)

  ghost predicate Init(s: State) {
    && (forall i :: 0 <= i < |s.slots| ==> s.slots[i] == Slot(false, None, Unclaimed))
    && s.numReaders == 0 && s.txnid == 0 && s.pgoldest == map[]
    && s.metas == [EMPTY, EMPTY] && s.writer == NoWriter
    && s.snaps == map[0 := EMPTY] && s.low == 0
  }

  // ------------------------------------------------------------------ steps

  datatype Step =
    // readers
    | ClaimReset(i: nat) | ClaimPid(i: nat) | Load(i: nat) | Store(i: nat) | Validate(i: nat)
    | CopyMeta(i: nat) | Reset(i: nat) | FreeSlot(i: nat)
    // the writer: transaction and low-water mark
    | BeginTxn(proc: nat) | Abort | StartScan | ScanPid | ScanTxnid | FinishScan
    // the writer: pages
    | FetchRecord(k: nat) | AllocHead(pages: set<nat>) | AllocNew(num: nat) | AllocLoose(p: nat)
    | Free(pages: set<nat>) | LoosenPage(p: nat) | ReleaseRun(pages: set<nat>) | DropLoose
    | Modify(p: nat, content: nat) | WriteOut(p: nat, content: nat)
    // commit
    | SaveFreeList(after: map<nat, set<nat>>) | FlushPage(p: nat) | Sync | WriteMeta | PublishTxn
    // the system
    | WriteBack(p: nat) | Crash

  ghost predicate InPhaseWorking(s: State) {
    s.writer.Writer? && s.writer.phase.Working?
  }

  ghost predicate SlotAt(s: State, i: nat, pc: ReaderPc) {
    i < |s.slots| && s.slots[i].pc == pc
  }

  ghost predicate Enabled(s: State, step: Step) {
    && |s.metas| == 2
    && match step
       case ClaimReset(i) => SlotAt(s, i, Unclaimed) && i <= s.numReaders
       case ClaimPid(i) => SlotAt(s, i, Claiming)
       case Load(i) => SlotAt(s, i, Registered)
       case Store(i) => i < |s.slots| && s.slots[i].pc.Loaded?
       case Validate(i) => SlotAt(s, i, Published)
       case CopyMeta(i) => SlotAt(s, i, Validated) && s.slots[i].txnid.Some?
       case Reset(i) => i < |s.slots| && (s.slots[i].pc.Validated? || s.slots[i].pc.Reading?)
       case FreeSlot(i) => SlotAt(s, i, Registered)
       case BeginTxn(_) => s.writer.NoWriter?
       case Abort => s.writer.Writer? && !s.writer.phase.MetaWritten?
       case StartScan => InPhaseWorking(s) && s.writer.pages.txnid > 0
       case ScanPid => s.writer.Writer? && s.writer.phase.Scanning? && !s.writer.phase.sawPid && 0 < s.writer.phase.i <= |s.slots|
       case ScanTxnid => s.writer.Writer? && s.writer.phase.Scanning? && s.writer.phase.sawPid && 0 < s.writer.phase.i <= |s.slots|
       case FinishScan => s.writer.Writer? && s.writer.phase.Scanning? && s.writer.phase.i == 0
       case FetchRecord(k) => InPhaseWorking(s) && IsNextRecord(s.writer.pages, k) && k < Oldest(s, s.writer.proc)
       case AllocHead(pages) => InPhaseWorking(s) && pages <= s.writer.pages.head
       case AllocNew(_) => InPhaseWorking(s)
       case AllocLoose(p) => InPhaseWorking(s) && p in s.writer.pages.loose
       case Free(pages) => InPhaseWorking(s) && pages <= s.writer.pages.tree
       case LoosenPage(p) => InPhaseWorking(s) && p in s.writer.pages.tree && p in s.writer.pages.dirty
       case ReleaseRun(pages) => InPhaseWorking(s) && pages <= s.writer.pages.tree && pages <= s.writer.pages.dirty
       case DropLoose => InPhaseWorking(s)
       case Modify(p, _) => InPhaseWorking(s) && p in s.writer.pages.tree && p in s.writer.pages.dirty
       case WriteOut(p, _) => && s.writer.Writer? && p in s.writer.pages.dirty
                              && (s.writer.phase.Working? || (s.writer.phase.Flushing? && p !in s.writer.pages.tree))
       case SaveFreeList(after) => InPhaseWorking(s) && s.writer.pages.dirty != {} && Saved(s.writer.pages, after)
       case FlushPage(p) => && s.writer.Writer? && s.writer.phase.Flushing?
                            && p in s.writer.pages.dirty && p in s.writer.pages.tree && p in s.writer.image
       case Sync => && s.writer.Writer? && s.writer.phase.Flushing?
                    && s.writer.pages.dirty * s.writer.pages.tree <= s.writer.phase.flushed
       case WriteMeta => s.writer.Writer? && s.writer.phase.Synced?
       case PublishTxn => s.writer.Writer? && s.writer.phase.MetaWritten?
       case WriteBack(p) => p in s.cache
       case Crash => true
  }

  function SetSlot(s: State, i: nat, slot: Slot): (t: State)
    requires i < |s.slots|
  {
    s.(slots := s.slots[i := slot])
  }

  function SetPages(s: State, pages: Pages): (t: State)
    requires s.writer.Writer?
  {
    s.(writer := s.writer.(pages := pages))
  }

  // Allocation: the pages join the tree with some initial contents.
  function Allocate(s: State, pages: Pages, new': set<nat>): (t: State)
    requires s.writer.Writer?
  {
    s.(writer := s.writer.(pages := pages, image := s.writer.image + map p | p in new' :: 0))
  }

  function Drop(s: State, pages: Pages, gone: set<nat>): (t: State)
    requires s.writer.Writer?
  {
    s.(writer := s.writer.(pages := pages, image := s.writer.image - gone))
  }

  function SetPhase(s: State, phase: Phase): (t: State)
    requires s.writer.Writer?
  {
    s.(writer := s.writer.(phase := phase))
  }

  // The version that the writer is about to commit.
  function NewSnapshot(s: State, after: map<nat, set<nat>>): (m: Snapshot)
    requires s.writer.Writer?
  {
    Snapshot(s.writer.pages.txnid, s.writer.image, after, s.writer.pages.next, s.low)
  }

  ghost function Apply(s: State, step: Step): (t: State)
    requires Enabled(s, step)
  {
    var w := s.writer;
    match step
    case ClaimReset(i) =>
      SetSlot(s, i, Slot(false, None, Claiming)).(numReaders := if i == s.numReaders then i + 1 else s.numReaders)
    case ClaimPid(i) => SetSlot(s, i, s.slots[i].(pid := true, pc := Registered))
    case Load(i) => SetSlot(s, i, s.slots[i].(pc := Loaded(s.txnid)))
    case Store(i) => SetSlot(s, i, s.slots[i].(txnid := Some(s.slots[i].pc.seen), pc := Published))
    case Validate(i) =>
      SetSlot(s, i, s.slots[i].(pc := if s.slots[i].txnid == Some(s.txnid) then Validated else Registered))
    case CopyMeta(i) => SetSlot(s, i, s.slots[i].(pc := Reading(s.metas[s.slots[i].txnid.value % 2].id)))
    case Reset(i) => SetSlot(s, i, s.slots[i].(txnid := None, pc := Registered))
    case FreeSlot(i) => SetSlot(s, i, Slot(false, s.slots[i].txnid, Unclaimed))
    case BeginTxn(proc) =>
      var m := s.metas[s.txnid % 2];
      s.(writer := Writer(proc, Working, Begin(s.txnid + 1, m.image.Keys, m.records, m.next), m.image))
    case Abort => s.(writer := NoWriter)
    case StartScan => SetPhase(s, Scanning(s.numReaders, w.pages.txnid - 1, false))
    case ScanPid =>
      SetPhase(s, if s.slots[w.phase.i - 1].pid then w.phase.(sawPid := true) else w.phase.(i := w.phase.i - 1))
    case ScanTxnid =>
      var mr := s.slots[w.phase.i - 1].txnid;
      SetPhase(s, Scanning(w.phase.i - 1, if mr.Some? && w.phase.oldest > mr.value then mr.value else w.phase.oldest, false))
    case FinishScan =>
      var o := w.phase.oldest;
      SetPhase(s, Working).(pgoldest := s.pgoldest[w.proc := o], low := if o > s.low then o else s.low)
    case FetchRecord(k) => SetPages(s, Fetch(w.pages, k))
    case AllocHead(pages) => Allocate(s, TakeHead(w.pages, pages), pages)
    case AllocNew(num) => Allocate(s, TakeNew(w.pages, num), RunOf(w.pages.next, num))
    case AllocLoose(p) => Allocate(s, TakeLoose(w.pages, p), {p})
    case Free(pages) => Drop(s, FreePages(w.pages, pages), pages)
    case LoosenPage(p) => Drop(s, Loosen(w.pages, p), {p})
    case ReleaseRun(pages) => Drop(s, Release(w.pages, pages), pages)
    case DropLoose => SetPages(s, LooseToFreed(w.pages))
    case Modify(p, content) => s.(writer := w.(image := w.image[p := content]))
    case WriteOut(p, content) => s.(cache := s.cache[p := content])
    case SaveFreeList(after) => SetPhase(s, Flushing(after, {}))
    case FlushPage(p) =>
      SetPhase(s, w.phase.(flushed := w.phase.flushed + {p})).(cache := s.cache[p := w.image[p]])
    case Sync => SetPhase(s, Synced(w.phase.after)).(durable := s.durable + s.cache)
    case WriteMeta =>
      var m := NewSnapshot(s, w.phase.after);
      SetPhase(s, MetaWritten).(metas := s.metas[m.id % 2 := m], snaps := s.snaps[m.id := m])
    case PublishTxn => s.(txnid := w.pages.txnid, writer := NoWriter)
    case WriteBack(p) => s.(durable := s.durable[p := s.cache[p]])
    case Crash =>
      s.(slots := seq(|s.slots|, _ => Slot(false, None, Unclaimed)), numReaders := 0, pgoldest := map[],
         txnid := PickMeta(s).id, cache := s.durable, writer := NoWriter)
  }

  // -------------------------------------------------------------- invariant

  function Newest(s: State): (k: nat)
    requires |s.metas| == 2
  {
    PickMeta(s).id
  }

  // The two meta pages hold the two newest versions, each at its parity.
  ghost predicate MetaInv(s: State) {
    && |s.metas| == 2
    && (forall k :: k in s.snaps <==> 0 <= k <= Newest(s))
    && (forall k :: k in s.snaps ==> s.snaps[k].id == k)
    && s.metas[Newest(s) % 2] == s.snaps[Newest(s)]
    && s.metas[(Newest(s) + 1) % 2] == s.snaps[if Newest(s) == 0 then 0 else Newest(s) - 1]
    && Newest(s) == (if s.writer.Writer? && s.writer.phase.MetaWritten? then s.txnid + 1 else s.txnid)
  }

  ghost predicate SnapInv(s: State) {
    && (forall k :: k in s.snaps ==>
          && SnapshotPartition(s.snaps[k].image.Keys, s.snaps[k].records, s.snaps[k].next)
          && s.snaps[k].next >= NUM_METAS
          && forall r :: r in s.snaps[k].records ==> 1 <= r <= k)
    && (forall j, k :: j in s.snaps && k in s.snaps && j <= k ==> s.snaps[j].next <= s.snaps[k].next)
  }

  // A slot that protects the versions from its id on.
  ghost predicate Holds(slot: Slot) {
    slot.pc.Validated? || slot.pc.Reading?
  }

  ghost predicate SlotOk(s: State, i: nat)
    requires i < |s.slots| && |s.metas| == 2
  {
    var slot := s.slots[i];
    && (slot.pc.Loaded? ==> slot.pc.seen <= s.txnid)
    && (slot.pc.Published? ==> slot.txnid.Some?)
    && (!slot.pc.Unclaimed? ==> i < s.numReaders)
    && (!slot.pc.Unclaimed? && !slot.pc.Claiming? ==> slot.pid)
    && (Holds(slot) ==> slot.txnid.Some? && s.low <= slot.txnid.value <= s.txnid)
    && (slot.pc.Reading? ==> slot.txnid.value <= slot.pc.snap <= Newest(s))
  }

  ghost predicate ReaderInv(s: State) {
    && |s.metas| == 2
    && s.low <= s.txnid && s.numReaders <= |s.slots|
    && (forall proc :: proc in s.pgoldest ==> s.pgoldest[proc] <= s.low)
    && (forall i :: 0 <= i < |s.slots| ==> SlotOk(s, i))
  }

  // The page is in no version from `from` on.
  ghost predicate Unused(snaps: map<nat, Snapshot>, from: int, p: nat) {
    forall k :: k in snaps && from <= k ==> p !in snaps[k].image
  }


  // Versions from here on are kept intact: those some reader may hold, and the
  // two that a meta page names.
  function Keep(s: State): (k: int) { Min(s.low, s.txnid - 1) }

  // A page filed under key k of the newest freeDB is in no version from
  // max(k, low-water mark at commit) on.  The key alone would not do: left-over
  // pages are filed under keys below the transaction that freed them.
  ghost predicate RecordInv(s: State) {
    && |s.metas| == 2
    && var c := PickMeta(s);
       && c.low <= s.low && c.low <= Max(c.id - 1, 0)
       && forall k, p :: k in c.records && p in c.records[k] ==> Unused(s.snaps, Max(k, c.low), p)
  }

  ghost predicate Intact(disk: map<nat, nat>, image: map<nat, nat>) {
    forall p :: p in image ==> p in disk && disk[p] == image[p]
  }

  ghost predicate IntactInv(s: State) {
    forall k :: k in s.snaps && Keep(s) <= k ==> Intact(s.cache, s.snaps[k].image) && Intact(s.durable, s.snaps[k].image)
  }

  // Pages that the writer may hand out or overwrite.
  ghost predicate Owned(ps: Pages, p: nat) {
    p in ps.dirty || p in ps.head || p in ps.loose
  }

  ghost predicate WriterInv(s: State) {
    s.writer.Writer? && !s.writer.phase.MetaWritten? ==>
      var ps, image := s.writer.pages, s.writer.image;
      && s.txnid in s.snaps
      && var c := s.snaps[s.txnid];
      && ps.txnid == s.txnid + 1 && ps.last < ps.txnid
      && Conserved(ps) && image.Keys == ps.tree
      && ps.records == c.records && c.next <= ps.next
      && (forall p: nat :: Owned(ps, p) ==> Unused(s.snaps, Keep(s), p))
      && (forall p :: p in ps.tree && p !in ps.dirty ==> p in c.image && image[p] == c.image[p])
  }

  ghost predicate PhaseInv(s: State) {
    s.writer.Writer? ==>
      var ps, image := s.writer.pages, s.writer.image;
      match s.writer.phase
      case Working => true
      case Scanning(i, oldest, sawPid) =>
        && i <= s.numReaders && oldest <= s.txnid
        && (forall j :: i <= j < |s.slots| && Holds(s.slots[j]) && s.slots[j].txnid.Some? ==> oldest <= s.slots[j].txnid.value)
      case Flushing(after, flushed) =>
        && Saved(ps, after)
        && (forall p :: p in flushed ==> p in image && p in s.cache && s.cache[p] == image[p])
      case Synced(after) => Saved(ps, after) && Intact(s.cache, image) && Intact(s.durable, image)
      case MetaWritten => ps.txnid == s.txnid + 1
  }

  ghost predicate Inv(s: State) {
    MetaInv(s) && SnapInv(s) && ReaderInv(s) && RecordInv(s) && IntactInv(s) && WriterInv(s) && PhaseInv(s)
  }

  // ---------------------------------------------------- the invariant is kept

  lemma InitInv(s: State)
    requires Init(s)
    ensures Inv(s)
  {
  }

  // Frames: what each part of the invariant depends on.

  ghost predicate Committed(w: Writer) { w.Writer? && w.phase.MetaWritten? }

  lemma MetaFrame(s: State, t: State)
    requires MetaInv(s) && SnapInv(s)
    requires t.metas == s.metas && t.snaps == s.snaps && t.txnid == s.txnid && Committed(s.writer) == Committed(t.writer)
    ensures MetaInv(t) && SnapInv(t)
  {
    hide SnapshotPartition;
  }

  lemma ReaderFrame(s: State, t: State)
    requires ReaderInv(s) && t.slots == s.slots && t.numReaders == s.numReaders && t.pgoldest == s.pgoldest
    requires t.low == s.low && t.txnid == s.txnid && t.metas == s.metas
    ensures ReaderInv(t)
  {
    assert forall i :: 0 <= i < |s.slots| ==> SlotOk(s, i) ==> SlotOk(t, i);
  }

  lemma RecordFrame(s: State, t: State)
    requires RecordInv(s) && t.metas == s.metas && t.snaps == s.snaps && s.low <= t.low
    ensures RecordInv(t)
  {
    hide Unused;
  }

  lemma IntactFrame(s: State, t: State)
    requires IntactInv(s) && t.snaps == s.snaps && Keep(s) <= Keep(t) && t.cache == s.cache && t.durable == s.durable
    ensures IntactInv(t)
  {
    hide Intact;
  }

  lemma WriterFrame(s: State, t: State)
    requires WriterInv(s) && t.snaps == s.snaps && t.txnid == s.txnid && Keep(s) <= Keep(t)
    requires s.writer.Writer? && t.writer.Writer? && t.writer == s.writer.(phase := t.writer.phase) && !Committed(s.writer)
    ensures WriterInv(t)
  {
    hide Conserved;
    assert forall p :: Unused(s.snaps, Keep(s), p) ==> Unused(t.snaps, Keep(t), p);
  }

  lemma NoWriterInv(s: State)
    requires s.writer.NoWriter?
    ensures WriterInv(s) && PhaseInv(s)
  {
  }

  ghost predicate IsReaderStep(step: Step) {
    step.ClaimReset? || step.ClaimPid? || step.Load? || step.Store? || step.Validate? || step.CopyMeta? || step.Reset? || step.FreeSlot?
  }

  lemma ReaderStepKeeps(s: State, step: Step)
    requires Inv(s) && Enabled(s, step) && IsReaderStep(step)
    ensures Inv(Apply(s, step))
  {
    hide MetaInv, SnapInv, ReaderInv, RecordInv, IntactInv, WriterInv, PhaseInv;
    var t := Apply(s, step);
    MetaFrame(s, t);
    RecordFrame(s, t);
    IntactFrame(s, t);
    ReaderStepWriter(s, t);
    ReaderStepSlots(s, step);
    ReaderStepPhase(s, step);
  }

  lemma ReaderStepWriter(s: State, t: State)
    requires WriterInv(s) && t.writer == s.writer && t.snaps == s.snaps && t.txnid == s.txnid && t.low == s.low
    ensures WriterInv(t)
  {
    hide Conserved, Unused;
  }

  lemma ReaderStepSlots(s: State, step: Step)
    requires MetaInv(s) && ReaderInv(s) && Enabled(s, step) && IsReaderStep(step)
    ensures ReaderInv(Apply(s, step))
  {
    hide MetaInv;
    var t := Apply(s, step);
    forall j | 0 <= j < |t.slots|
      ensures SlotOk(t, j)
    {
      assert SlotOk(s, j);
      if step.CopyMeta? && j == step.i {
        CopiedMeta(s, j);
      }
    }
  }

  // Only a step of slot j changes it, and only a validation makes it hold an id,
  // the current one.
  lemma ReaderStepPhase(s: State, step: Step)
    requires PhaseInv(s) && ReaderInv(s) && Enabled(s, step) && IsReaderStep(step)
    ensures PhaseInv(Apply(s, step))
  {
    var t := Apply(s, step);
    if s.writer.Writer? && s.writer.phase.Scanning? {
      forall j | s.writer.phase.i <= j < |t.slots| && Holds(t.slots[j]) && t.slots[j].txnid.Some?
        ensures s.writer.phase.oldest <= t.slots[j].txnid.value
      {
        assert SlotOk(s, j);
      }
    }
  }

  // The meta page at the parity of a validated id names that version, or a later
  // one when two more commits came in between.
  lemma CopiedMeta(s: State, i: nat)
    requires MetaInv(s) && i < |s.slots| && s.slots[i].txnid.Some? && s.slots[i].txnid.value <= s.txnid
    ensures s.slots[i].txnid.value <= s.metas[s.slots[i].txnid.value % 2].id <= Newest(s)
  {
    var v, n := s.slots[i].txnid.value, Newest(s);
    if v % 2 != n % 2 {
      assert v % 2 == (n + 1) % 2;
      assert v != n;
    }
  }

  // Steps of the working writer on its own pages.
  ghost predicate IsPageStep(step: Step) {
    step.FetchRecord? || step.AllocHead? || step.AllocNew? || step.AllocLoose? || step.Free? || step.LoosenPage? ||
    step.ReleaseRun? || step.DropLoose? || step.Modify?
  }

  lemma PageStepKeeps(s: State, step: Step)
    requires Inv(s) && Enabled(s, step) && IsPageStep(step)
    ensures Inv(Apply(s, step))
  {
    hide MetaInv, SnapInv, ReaderInv, RecordInv, IntactInv, WriterInv;
    var t := Apply(s, step);
    assert PhaseInv(t);
    MetaFrame(s, t);
    ReaderFrame(s, t);
    RecordFrame(s, t);
    IntactFrame(s, t);
    PageStepConserves(s, step);
    PageStepOwned(s, step);
    PageStepImage(s, step);
    WriterInvFromParts(s, t);
  }

  ghost predicate WriterOnly(s: State, t: State) {
    && s.writer.Writer? && t.writer.Writer? && s.writer.phase == t.writer.phase && s.writer.phase.Working?
    && t == s.(writer := t.writer)
    && t.writer.pages.txnid == s.writer.pages.txnid && t.writer.pages.records == s.writer.pages.records
  }

  lemma PageStepConserves(s: State, step: Step)
    requires WriterInv(s) && Enabled(s, step) && IsPageStep(step)
    ensures WriterOnly(s, Apply(s, step)) && Conserved(Apply(s, step).writer.pages)
    ensures s.writer.pages.next <= Apply(s, step).writer.pages.next
    ensures Apply(s, step).writer.pages.last < s.writer.pages.txnid
  {
    hide Conserved, Unused, Saved, Begin, NewSnapshot, PickMeta;
    var ps := s.writer.pages;
    match step
    case FetchRecord(k) => FetchConserves(ps, k);
    case AllocHead(pages) => TakeHeadConserves(ps, pages);
    case AllocNew(num) => TakeNewConserves(ps, num);
    case AllocLoose(p) => TakeLooseConserves(ps, p);
    case Free(pages) => FreePagesConserves(ps, pages);
    case LoosenPage(p) => LoosenConserves(ps, p);
    case ReleaseRun(pages) => ReleaseConserves(ps, pages);
    case DropLoose => LooseToFreedConserves(ps);
    case Modify(_, _) =>
  }

  ghost predicate OwnedUnused(s: State, w: Writer) {
    w.Writer? && forall p: nat :: Owned(w.pages, p) ==> Unused(s.snaps, Keep(s), p)
  }

  // What the writer did not allocate itself it has not changed.
  ghost predicate ImageKept(old': Writer, w: Writer) {
    && old'.Writer? && w.Writer? && w.image.Keys == w.pages.tree
    && forall p :: p in w.pages.tree && p !in w.pages.dirty ==>
         p in old'.image && p in old'.pages.tree && p !in old'.pages.dirty && w.image[p] == old'.image[p]
  }

  // Pages come into the writer's hands only out of reach of every kept version.
  lemma PageStepOwned(s: State, step: Step)
    requires Inv(s) && Enabled(s, step) && IsPageStep(step)
    ensures OwnedUnused(s, Apply(s, step).writer)
  {
    hide Conserved, MetaInv, SnapInv, ReaderInv, RecordInv, IntactInv, PhaseInv, Unused;
    var ps, t := s.writer.pages, Apply(s, step);
    forall p: nat | Owned(t.writer.pages, p)
      ensures Unused(s.snaps, Keep(s), p)
    {
      if step.FetchRecord? && p in ps.records[step.k] {
        FetchedUnused(s, step.k, p);
      } else if step.AllocNew? && p >= ps.next {
        NewPageUnused(s, p);
      } else {
        assert Owned(ps, p);
      }
    }
  }

  /** A page of a record below the process's cached low-water mark is in no kept
      version, whatever key it was filed under. */
  lemma FetchedUnused(s: State, k: nat, p: nat)
    requires Inv(s) && Enabled(s, FetchRecord(k)) && p in s.writer.pages.records[k]
    ensures Unused(s.snaps, Keep(s), p)
  {
    hide Conserved, SnapshotPartition, Intact, PhaseInv, SlotOk;
    var c := PickMeta(s);
    assert c == s.snaps[s.txnid] && k in c.records;
    assert k < Oldest(s, s.writer.proc) <= s.low <= s.txnid;
    assert Unused(s.snaps, Max(k, c.low), p);
    assert Max(k, c.low) <= Keep(s);
  }

  lemma NewPageUnused(s: State, p: nat)
    requires Inv(s) && InPhaseWorking(s) && p >= s.writer.pages.next
    ensures Unused(s.snaps, Keep(s), p)
  {
    hide Conserved, Intact, IntactInv, RecordInv, ReaderInv, PhaseInv;
    forall k | k in s.snaps
      ensures p !in s.snaps[k].image
    {
      assert k <= s.txnid;
      assert s.snaps[k].next <= s.snaps[s.txnid].next <= p;
    }
  }

  lemma PageStepImage(s: State, step: Step)
    requires WriterInv(s) && Enabled(s, step) && IsPageStep(step)
    ensures ImageKept(s.writer, Apply(s, step).writer)
  {
    var t := Apply(s, step);
    assert t.writer.image.Keys == t.writer.pages.tree;
  }

  lemma WriterInvFromParts(s: State, t: State)
    requires WriterInv(s) && WriterOnly(s, t) && Conserved(t.writer.pages)
    requires s.writer.pages.next <= t.writer.pages.next && t.writer.pages.last < s.writer.pages.txnid
    requires OwnedUnused(s, t.writer) && ImageKept(s.writer, t.writer)
    ensures WriterInv(t)
  {
    hide Conserved, Owned, Unused;
  }

  // Steps that only move the writer from one phase before the commit to another.
  ghost predicate IsPhaseStep(step: Step) {
    step.StartScan? || step.ScanPid? || step.ScanTxnid? || step.SaveFreeList?
  }

  lemma PhaseStepKeeps(s: State, step: Step)
    requires Inv(s) && Enabled(s, step) && IsPhaseStep(step)
    ensures Inv(Apply(s, step))
  {
    hide MetaInv, SnapInv, ReaderInv, RecordInv, IntactInv, WriterInv, PhaseInv;
    var t := Apply(s, step);
    PhaseStepScan(s, step);
    MetaFrame(s, t);
    ReaderFrame(s, t);
    RecordFrame(s, t);
    IntactFrame(s, t);
    WriterFrame(s, t);
  }

  // The partial scan: the mark is below every id held by a slot already passed.
  lemma PhaseStepScan(s: State, step: Step)
    requires MetaInv(s) && ReaderInv(s) && WriterInv(s) && PhaseInv(s) && Enabled(s, step) && IsPhaseStep(step)
    ensures PhaseInv(Apply(s, step))
  {
    hide MetaInv, Conserved, Saved, Intact, Unused;
    var t := Apply(s, step);
    if !step.SaveFreeList? {
      forall j | t.writer.phase.i <= j < |t.slots| && Holds(t.slots[j]) && t.slots[j].txnid.Some?
        ensures t.writer.phase.oldest <= t.slots[j].txnid.value
      {
        assert SlotOk(s, j);
      }
    }
  }

  lemma FinishScanKeeps(s: State)
    requires Inv(s) && Enabled(s, FinishScan)
    ensures Inv(Apply(s, FinishScan))
  {
    hide MetaInv, SnapInv, RecordInv, IntactInv, WriterInv;
    var t := Apply(s, FinishScan);
    MetaFrame(s, t);
    RecordFrame(s, t);
    IntactFrame(s, t);
    WriterFrame(s, t);
    forall i | 0 <= i < |t.slots|
      ensures SlotOk(t, i)
    {
      assert SlotOk(s, i);
    }
  }

  lemma AbortKeeps(s: State)
    requires Inv(s) && Enabled(s, Abort)
    ensures Inv(Apply(s, Abort))
  {
    hide MetaInv, SnapInv, ReaderInv, RecordInv, IntactInv, WriterInv, PhaseInv;
    var t := Apply(s, Abort);
    MetaFrame(s, t);
    ReaderFrame(s, t);
    RecordFrame(s, t);
    IntactFrame(s, t);
    NoWriterInv(t);
  }

  lemma BeginTxnKeeps(s: State, proc: nat)
    requires Inv(s) && Enabled(s, BeginTxn(proc))
    ensures Inv(Apply(s, BeginTxn(proc)))
  {
    hide ReaderInv, RecordInv, IntactInv, SnapshotPartition, Conserved, Unused;
    var t, m := Apply(s, BeginTxn(proc)), s.metas[s.txnid % 2];
    MetaFrame(s, t);
    ReaderFrame(s, t);
    RecordFrame(s, t);
    IntactFrame(s, t);
    assert m == s.snaps[s.txnid];
    BeginConserves(s.txnid + 1, m.image.Keys, m.records, m.next);
  }

  // ---------------------------------------------------------- page contents

  // Overwriting a page that no kept version uses leaves them intact.
  lemma OverwriteKeepsIntact(disk: map<nat, nat>, image: map<nat, nat>, p: nat, content: nat)
    requires Intact(disk, image) && p !in image
    ensures Intact(disk[p := content], image)
  {
  }

  lemma CacheWriteKeeps(s: State, t: State, p: nat, content: nat)
    requires MetaInv(s) && SnapInv(s) && ReaderInv(s) && RecordInv(s) && IntactInv(s) && WriterInv(s)
    requires s.writer.Writer? && !s.writer.phase.MetaWritten? && p in s.writer.pages.dirty
    requires t.writer.Writer? && t == s.(cache := s.cache[p := content], writer := s.writer.(phase := t.writer.phase))
    requires !t.writer.phase.MetaWritten?
    ensures MetaInv(t) && SnapInv(t) && ReaderInv(t) && RecordInv(t) && IntactInv(t) && WriterInv(t)
  {
    hide MetaInv, SnapInv, ReaderInv, RecordInv, Conserved, Intact;
    MetaFrame(s, t);
    ReaderFrame(s, t);
    RecordFrame(s, t);
    WriterFrame(s, t);
    assert Owned(s.writer.pages, p);
    forall k | k in t.snaps && Keep(t) <= k
      ensures Intact(t.cache, t.snaps[k].image)
    {
      OverwriteKeepsIntact(s.cache, s.snaps[k].image, p, content);
    }
  }

  lemma WriteOutKeeps(s: State, p: nat, content: nat)
    requires Inv(s) && Enabled(s, WriteOut(p, content))
    ensures Inv(Apply(s, WriteOut(p, content)))
  {
    hide MetaInv, SnapInv, ReaderInv, RecordInv, IntactInv, Saved;
    var t := Apply(s, WriteOut(p, content));
    CacheWriteKeeps(s, t, p, content);
    assert s.writer.phase.Flushing? ==> p !in s.writer.image.Keys;
  }

  lemma FlushPageKeeps(s: State, p: nat)
    requires Inv(s) && Enabled(s, FlushPage(p))
    ensures Inv(Apply(s, FlushPage(p)))
  {
    hide MetaInv, SnapInv, ReaderInv, RecordInv, IntactInv, WriterInv, Saved;
    var t := Apply(s, FlushPage(p));
    CacheWriteKeeps(s, t, p, s.writer.image[p]);
  }

  lemma WriteBackKeeps(s: State, p: nat)
    requires Inv(s) && Enabled(s, WriteBack(p))
    ensures Inv(Apply(s, WriteBack(p)))
  {
    hide MetaInv, SnapInv, ReaderInv, RecordInv, WriterInv, Saved;
    var t := Apply(s, WriteBack(p));
    MetaFrame(s, t);
    ReaderFrame(s, t);
    RecordFrame(s, t);
    ReaderStepWriter(s, t);
  }

  lemma SyncKeeps(s: State)
    requires Inv(s) && Enabled(s, Sync)
    ensures Inv(Apply(s, Sync))
  {
    hide MetaInv, SnapInv, ReaderInv, RecordInv, WriterInv, Saved;
    var t := Apply(s, Sync);
    MetaFrame(s, t);
    ReaderFrame(s, t);
    RecordFrame(s, t);
    WriterFrame(s, t);
    SyncedImage(s);
  }

  // After the flush every page of the new version is on disk: the dirty ones were
  // written, the others belong to the previous version.
  lemma SyncedImage(s: State)
    requires Inv(s) && Enabled(s, Sync)
    ensures Intact(s.cache, s.writer.image)
  {
    hide SnapshotPartition, Conserved, Saved, Unused, RecordInv, ReaderInv, SnapInv;
    var c := s.snaps[s.txnid];
    assert Keep(s) <= s.txnid;
    forall p | p in s.writer.image
      ensures p in s.cache && s.cache[p] == s.writer.image[p]
    {
      assert p in s.writer.image.Keys;
      if p in s.writer.pages.dirty {
        assert p in s.writer.pages.dirty * s.writer.pages.tree;
      } else {
        assert p in c.image;
      }
    }
  }

  // ------------------------------------------------------------------ commit

  lemma WriteMetaKeeps(s: State)
    requires Inv(s) && Enabled(s, WriteMeta)
    ensures Inv(Apply(s, WriteMeta))
  {
    hide MetaInv, SnapInv, ReaderInv, RecordInv, IntactInv, WriterInv, PhaseInv;
    var t := Apply(s, WriteMeta);
    WriteMetaMetas(s);
    WriteMetaSnaps(s);
    WriteMetaReaders(s);
    WriteMetaRecords(s);
    WriteMetaIntact(s);
    assert WriterInv(t) && PhaseInv(t) by { WriteMetaWriter(s); }
  }

  lemma WriteMetaWriter(s: State)
    requires WriterInv(s) && Enabled(s, WriteMeta)
    ensures WriterInv(Apply(s, WriteMeta)) && PhaseInv(Apply(s, WriteMeta))
  {
  }

  lemma WriteMetaMetas(s: State)
    requires MetaInv(s) && WriterInv(s) && Enabled(s, WriteMeta)
    ensures MetaInv(Apply(s, WriteMeta))
    ensures PickMeta(Apply(s, WriteMeta)) == NewSnapshot(s, s.writer.phase.after)
  {
    hide Conserved, Unused;
    var t, n := Apply(s, WriteMeta), s.txnid + 1;
    assert s.writer.pages.txnid == n && t.metas[n % 2].id == n;
    assert t.metas[(n + 1) % 2] == s.metas[s.txnid % 2] == s.snaps[s.txnid];
  }

  lemma WriteMetaSnaps(s: State)
    requires MetaInv(s) && SnapInv(s) && WriterInv(s) && PhaseInv(s) && Enabled(s, WriteMeta)
    ensures SnapInv(Apply(s, WriteMeta))
  {
    hide Conserved, Unused, SnapshotPartition;
    SavedIsPartition(s.writer.pages, s.writer.phase.after);
  }

  lemma WriteMetaReaders(s: State)
    requires MetaInv(s) && ReaderInv(s) && WriterInv(s) && Enabled(s, WriteMeta)
    ensures ReaderInv(Apply(s, WriteMeta))
  {
    hide Conserved, Unused;
    var t := Apply(s, WriteMeta);
    WriteMetaMetas(s);
    forall i | 0 <= i < |t.slots|
      ensures SlotOk(t, i)
    {
      assert SlotOk(s, i);
    }
  }

  /** The freeDB just committed: its pages, the left-over ones filed under small
      keys included, are in no version from max(key, low-water mark) on. */
  lemma WriteMetaRecords(s: State)
    requires Inv(s) && Enabled(s, WriteMeta)
    ensures RecordInv(Apply(s, WriteMeta))
  {
    hide IntactInv, SnapInv, SnapshotPartition, SlotOk, Intact, Conserved;
    var t, after, ps := Apply(s, WriteMeta), s.writer.phase.after, s.writer.pages;
    WriteMetaMetas(s);
    forall k, p | k in after && p in after[k]
      ensures Unused(t.snaps, Max(k, s.low), p)
    {
      FiledUnused(s, k, p);
    }
  }

  lemma FiledUnused(s: State, k: nat, p: nat)
    requires Inv(s) && s.writer.Writer? && s.writer.phase.Synced? && k in s.writer.phase.after && p in s.writer.phase.after[k]
    ensures p !in s.writer.image
    ensures k <= s.txnid ==> Unused(s.snaps, Max(k, s.low), p)
  {
    hide IntactInv, SnapshotPartition, SlotOk, Intact;
    var ps, after := s.writer.pages, s.writer.phase.after;
    assert Saved(ps, after);
    SavedIsPartition(ps, after);
    assert p !in s.writer.image.Keys by { assert SnapshotPartition(ps.tree, after, ps.next); }
    if k <= ps.last {
      assert p in ps.head || p in ps.loose;
      assert Owned(ps, p);
      assert Keep(s) <= s.low;
    } else if k < ps.txnid {
      assert Live(ps, k);
      assert PickMeta(s) == s.snaps[s.txnid];
    }
  }

  lemma WriteMetaIntact(s: State)
    requires MetaInv(s) && IntactInv(s) && WriterInv(s) && PhaseInv(s) && Enabled(s, WriteMeta)
    ensures IntactInv(Apply(s, WriteMeta))
  {
    hide Conserved, Unused, Saved, Intact;
  }

  lemma PublishTxnKeeps(s: State)
    requires Inv(s) && Enabled(s, PublishTxn)
    ensures Inv(Apply(s, PublishTxn))
  {
    hide SnapInv, RecordInv, IntactInv, WriterInv;
    var t := Apply(s, PublishTxn);
    RecordFrame(s, t);
    IntactFrame(s, t);
    NoWriterInv(t);
    assert SnapInv(t) by { SnapFrame(s, t); }
    forall i | 0 <= i < |t.slots|
      ensures SlotOk(t, i)
    {
      assert SlotOk(s, i);
    }
  }

  lemma SnapFrame(s: State, t: State)
    requires SnapInv(s) && t.snaps == s.snaps
    ensures SnapInv(t)
  {
  }

  lemma CrashKeeps(s: State)
    requires Inv(s)
    ensures Inv(Apply(s, Crash))
  {
    hide Apply, Enabled, MetaInv, SnapInv, ReaderInv, RecordInv, IntactInv, WriterInv, PhaseInv;
    CrashEnabled(s);
    var t := Apply(s, Crash);
    CrashState(s, t);
    CrashMetas(s, t);
    RecordFrame(s, t);
    NoWriterInv(t);
    SnapFrame(s, t);
  }

  lemma CrashEnabled(s: State)
    requires MetaInv(s)
    ensures Enabled(s, Crash)
  {
  }

  lemma CrashState(s: State, t: State)
    requires Enabled(s, Crash) && t == Apply(s, Crash)
    ensures t == s.(slots := seq(|s.slots|, _ => Slot(false, None, Unclaimed)), numReaders := 0, pgoldest := map[],
                    txnid := PickMeta(s).id, cache := s.durable, writer := NoWriter)
  {
  }

  lemma CrashMetas(s: State, t: State)
    requires MetaInv(s) && ReaderInv(s) && IntactInv(s)
    requires t == s.(slots := seq(|s.slots|, _ => Slot(false, None, Unclaimed)), numReaders := 0, pgoldest := map[],
                     txnid := PickMeta(s).id, cache := s.durable, writer := NoWriter)
    ensures MetaInv(t) && ReaderInv(t) && IntactInv(t)
  {
    hide Intact;
    assert t.txnid == Newest(s) && Keep(s) <= Keep(t);
  }

  lemma StepKeepsInv(s: State, step: Step)
    requires Inv(s) && Enabled(s, step)
    ensures Inv(Apply(s, step))
  {
    hide Inv, Apply, Enabled;
    match step
    case BeginTxn(proc) => BeginTxnKeeps(s, proc);
    case Abort => AbortKeeps(s);
    case FinishScan => FinishScanKeeps(s);
    case WriteOut(p, content) => WriteOutKeeps(s, p, content);
    case FlushPage(p) => FlushPageKeeps(s, p);
    case Sync => SyncKeeps(s);
    case WriteMeta => WriteMetaKeeps(s);
    case PublishTxn => PublishTxnKeeps(s);
    case WriteBack(p) => WriteBackKeeps(s, p);
    case Crash => CrashKeeps(s);
    case _ =>
      if IsReaderStep(step) {
        ReaderStepKeeps(s, step);
      } else if IsPageStep(step) {
        PageStepKeeps(s, step);
      } else {
        PhaseStepKeeps(s, step);
      }
  }

  // -------------------------------------------------------------------- runs

  ghost predicate IsRun(trace: seq<State>, steps: seq<Step>) {
    && |trace| == |steps| + 1 && Init(trace[0])
    && forall i :: 0 <= i < |steps| ==> Enabled(trace[i], steps[i]) && trace[i + 1] == Apply(trace[i], steps[i])
  }

  lemma {:induction false} RunInv(trace: seq<State>, steps: seq<Step>, i: nat)
    requires IsRun(trace, steps) && i < |trace|
    ensures Inv(trace[i])
  {
    hide Init, Inv, Apply, Enabled;
    if i == 0 {
      InitInv(trace[0]);
    } else {
      RunInv(trace, steps, i - 1);
      StepKeepsInv(trace[i - 1], steps[i - 1]);
    }
  }

  // The pages that a step hands out to the writer.
  ghost function HandedOut(s: State, step: Step): (pages: set<nat>)
    requires Enabled(s, step)
  {
    match step
    case AllocHead(pages) => pages
    case AllocNew(num) => RunOf(s.writer.pages.next, num)
    case AllocLoose(p) => {p}
    case _ => {}
  }

  /** In every interleaving, a page handed out by the allocator is in no version
      from the id of any validated slot on. */
  lemma AllocationSafe(trace: seq<State>, steps: seq<Step>, n: nat, i: nat, k: nat)
    requires IsRun(trace, steps) && n < |steps|
    requires i < |trace[n].slots| && Holds(trace[n].slots[i])
    requires k in trace[n].snaps && trace[n].slots[i].txnid.Some? && trace[n].slots[i].txnid.value <= k
    ensures HandedOut(trace[n], steps[n]) !! trace[n].snaps[k].image.Keys
  {
    var s, step := trace[n], steps[n];
    RunInv(trace, steps, n);
    assert SlotOk(s, i);
    forall p | p in HandedOut(s, step)
      ensures p !in s.snaps[k].image.Keys
    {
      HandedOutUnused(s, step, p);
    }
  }

  lemma HandedOutUnused(s: State, step: Step, p: nat)
    requires Inv(s) && Enabled(s, step) && p in HandedOut(s, step)
    ensures Unused(s.snaps, Keep(s), p) && Keep(s) <= s.low
  {
    hide MetaInv, SnapInv, ReaderInv, RecordInv, IntactInv, PhaseInv, Conserved, Unused;
    if step.AllocNew? {
      NewPageUnused(s, p);
    } else {
      assert Owned(s.writer.pages, p);
    }
  }

  // Versions, once committed, stay what they are.
  lemma {:induction false} VersionsFixed(trace: seq<State>, steps: seq<Step>, i: nat, j: nat, k: nat)
    requires IsRun(trace, steps) && i <= j < |trace| && k in trace[i].snaps
    ensures k in trace[j].snaps && trace[j].snaps[k] == trace[i].snaps[k]
    decreases j - i
  {
    hide Init, Inv, Apply, Enabled;
    if i < j {
      VersionsFixed(trace, steps, i, j - 1, k);
      RunInv(trace, steps, j - 1);
      StepKeepsVersion(trace[j - 1], steps[j - 1], k);
    }
  }

  lemma StepKeepsVersion(s: State, step: Step, k: nat)
    requires Inv(s) && Enabled(s, step) && k in s.snaps
    ensures k in Apply(s, step).snaps && Apply(s, step).snaps[k] == s.snaps[k]
  {
    hide Enabled, Apply, SnapInv, ReaderInv, RecordInv, IntactInv, PhaseInv, Conserved, Unused;
    if step.WriteMeta? {
      WriteMetaAdds(s, k);
    } else {
      VersionsSame(s, step);
    }
  }

  lemma WriteMetaAdds(s: State, k: nat)
    requires MetaInv(s) && WriterInv(s) && Enabled(s, WriteMeta) && k in s.snaps
    ensures k in Apply(s, WriteMeta).snaps && Apply(s, WriteMeta).snaps[k] == s.snaps[k]
  {
    hide Conserved, Unused;
    assert k <= s.txnid;
  }

  // Only the write of a meta page adds a version.
  lemma VersionsSame(s: State, step: Step)
    requires Enabled(s, step) && !step.WriteMeta?
    ensures Apply(s, step).snaps == s.snaps
  {
    hide Enabled, Saved, Begin, Fetch, TakeHead, TakeNew, TakeLoose, FreePages, Loosen, Release, LooseToFreed, RunOf, NewSnapshot, PickMeta;
  }

  /** Reader safety over whole runs: the version a reader copied at time m is shown
      unchanged by the map at every later time at which the reader still works on it. */
  lemma ReaderSeesItsVersion(trace: seq<State>, steps: seq<Step>, m: nat, n: nat, i: nat)
    requires IsRun(trace, steps) && m <= n < |trace|
    requires i < |trace[m].slots| && i < |trace[n].slots|
    requires trace[m].slots[i].pc.Reading? && trace[n].slots[i].pc == trace[m].slots[i].pc
    ensures var w := trace[m].slots[i].pc.snap;
            w in trace[m].snaps && Intact(trace[n].cache, trace[m].snaps[w].image)
  {
    var w, s := trace[m].slots[i].pc.snap, trace[n];
    RunInv(trace, steps, m);
    RunInv(trace, steps, n);
    assert SlotOk(trace[m], i) && SlotOk(s, i);
    VersionsFixed(trace, steps, m, n, w);
    assert Keep(s) <= w;
  }

  // The state r that recovery finds after a crash in state s.
  ghost predicate Recovered(s: State, r: State) {
    && |r.metas| == 2 && s.snaps == r.snaps && r.cache == s.durable
    && (forall i :: 0 <= i < |r.slots| ==> r.slots[i] == Slot(false, None, Unclaimed))
    && r.txnid == (if Committed(s.writer) then s.txnid + 1 else s.txnid)
    && r.txnid in s.snaps && PickMeta(r) == s.snaps[r.txnid]
    && Intact(r.cache, s.snaps[r.txnid].image)
    && SnapshotPartition(s.snaps[r.txnid].image.Keys, s.snaps[r.txnid].records, s.snaps[r.txnid].next)
    && (r.txnid > 0 ==> r.txnid - 1 in s.snaps && Intact(r.cache, s.snaps[r.txnid - 1].image))
  }

  lemma CrashRecovers(s: State)
    requires Inv(s)
    ensures Recovered(s, Apply(s, Crash))
  {
    hide SnapshotPartition, Intact, RecordInv, ReaderInv, WriterInv, PhaseInv;
    var r := Apply(s, Crash);
    assert r.txnid == Newest(s) && Keep(s) <= r.txnid - 1;
  }

  /** Crash safety over whole runs: whatever step comes last, recovery picks the
      version before the one being committed or, once its meta page is written,
      that one; and every page of it, and of the version before it, is intact. */
  lemma CrashSafe(trace: seq<State>, steps: seq<Step>, n: nat)
    requires IsRun(trace, steps) && n < |trace|
    ensures Enabled(trace[n], Crash) && Recovered(trace[n], Apply(trace[n], Crash))
  {
    hide Init, Apply;
    RunInv(trace, steps, n);
    CrashRecovers(trace[n]);
  }

  /** No page of the two newest versions is ever overwritten. */
  lemma TwoVersionsKept(trace: seq<State>, steps: seq<Step>, n: nat, p: nat)
    requires IsRun(trace, steps) && n < |steps|
    requires steps[n].WriteOut? || steps[n].FlushPage?
    requires steps[n].p == p
    ensures var s := trace[n];
            && s.txnid in s.snaps && p !in s.snaps[s.txnid].image
            && (s.txnid > 0 ==> s.txnid - 1 in s.snaps && p !in s.snaps[s.txnid - 1].image)
  {
    hide SnapInv, RecordInv, IntactInv, PhaseInv, Conserved;
    var s := trace[n];
    RunInv(trace, steps, n);
    assert Owned(s.writer.pages, p);
  }

  /** The meta copy is not covered by the comparison.  It yields the version named
      in the slot exactly as long as fewer than two more versions were committed. */
  lemma CopyIsExact(s: State, i: nat)
    requires Inv(s) && Enabled(s, CopyMeta(i))
    ensures s.metas[s.slots[i].txnid.value % 2].id == s.slots[i].txnid.value <==> Newest(s) <= s.slots[i].txnid.value + 1
  {
    hide SnapInv, RecordInv, IntactInv, WriterInv, PhaseInv;
    var v, c := s.slots[i].txnid.value, Newest(s);
    assert SlotOk(s, i);
    CopiedMeta(s, i);
    if c <= v + 1 {
      assert v == c || v + 1 == c;
      assert v + 1 == c ==> v % 2 == (c + 1) % 2;
    } else if v % 2 != c % 2 {
      assert v % 2 == (c + 1) % 2;
    }
  }

  // ------------------------------------------------- a copy that comes late

  lemma Continue(trace: seq<State>, steps: seq<Step>, step: Step, t: State) returns (trace': seq<State>, steps': seq<Step>)
    requires IsRun(trace, steps) && Enabled(trace[|trace| - 1], step) && Apply(trace[|trace| - 1], step) == t
    ensures IsRun(trace', steps') && |trace'| > 0 && trace'[|trace'| - 1] == t
  {
    hide Enabled, Apply, Init;
    trace', steps' := trace + [t], steps + [step];
  }

  // A commit of one new page on an empty freeDB, step by step.
  function Began(s: State): State
    requires |s.metas| == 2
  {
    var m := s.metas[s.txnid % 2];
    s.(writer := Writer(0, Working, Begin(s.txnid + 1, m.image.Keys, m.records, m.next), m.image))
  }

  function Grown(s: State): State
    requires s.writer.Writer?
  {
    Allocate(s, TakeNew(s.writer.pages, 1), RunOf(s.writer.pages.next, 1))
  }

  function Changed(s: State, p: nat, content: nat): State
    requires s.writer.Writer?
  {
    s.(writer := s.writer.(image := s.writer.image[p := content]))
  }

  lemma CommitGrows(s: State, t: State, p: nat)
    requires |s.metas| == 2 && s.writer.NoWriter? && s.metas[s.txnid % 2].records == map[]
    requires p == s.metas[s.txnid % 2].next && t == Grown(Began(s))
    ensures Enabled(s, BeginTxn(0)) && Apply(s, BeginTxn(0)) == Began(s)
    ensures Enabled(Began(s), AllocNew(1)) && Apply(Began(s), AllocNew(1)) == t
    ensures p in t.writer.pages.tree && t.writer.pages.dirty == {p} && Saved(t.writer.pages, map[])
    ensures t.writer.image == s.metas[s.txnid % 2].image[p := 0]
  {
    assert RunOf(p, 1) == {p};
  }

  lemma CommitChanges(s: State, t: State, p: nat, content: nat)
    requires |s.metas| == 2 && InPhaseWorking(s) && t == Changed(s, p, content)
    requires p in s.writer.pages.tree && s.writer.pages.dirty == {p} && Saved(s.writer.pages, map[])
    ensures Enabled(s, Modify(p, content)) && Apply(s, Modify(p, content)) == t
    ensures Enabled(t, SaveFreeList(map[]))
  {
    hide Saved;
  }

  lemma CommitFlushes(s: State, p: nat) returns (a: State, b: State)
    requires |s.metas| == 2 && s.writer.Writer? && s.writer.phase == Flushing(map[], {})
    requires s.writer.pages.dirty == {p} && p in s.writer.pages.tree && p in s.writer.image
    ensures Enabled(s, FlushPage(p)) && Apply(s, FlushPage(p)) == a
    ensures Enabled(a, Sync) && Apply(a, Sync) == b
    ensures b == s.(writer := s.writer.(phase := Synced(map[])), cache := b.cache, durable := b.durable)
  {
    a := Apply(s, FlushPage(p));
    b := Apply(a, Sync);
  }

  lemma CommitPublishes(s: State) returns (a: State, b: State)
    requires |s.metas| == 2 && s.writer.Writer? && s.writer.phase == Synced(map[])
    ensures Enabled(s, WriteMeta) && Apply(s, WriteMeta) == a
    ensures Enabled(a, PublishTxn) && Apply(a, PublishTxn) == b
    ensures var id := s.writer.pages.txnid;
      && b.writer.NoWriter? && b.slots == s.slots && b.txnid == id && |b.metas| == 2
      && b.metas[id % 2].id == id && b.metas[id % 2].records == map[] && b.metas[id % 2].image == s.writer.image
      && b.metas[(id + 1) % 2] == s.metas[(id + 1) % 2]
  {
    a := Apply(s, WriteMeta);
    b := Apply(a, PublishTxn);
  }

  // Any run without a writer and with an empty freeDB goes on with a commit of one new page, of
  // any content.
  lemma CommitOnce(trace: seq<State>, steps: seq<Step>, content: nat) returns (trace': seq<State>, steps': seq<Step>)
    requires IsRun(trace, steps) && |trace| > 0
    requires var s := trace[|trace| - 1];
      s.writer.NoWriter? && |s.metas| == 2 && s.metas[s.txnid % 2].records == map[]
    ensures IsRun(trace', steps') && |trace'| > 0
    ensures var s, t := trace[|trace| - 1], trace'[|trace'| - 1];
      && t.writer.NoWriter? && t.slots == s.slots && t.txnid == s.txnid + 1 && |t.metas| == 2
      && t.metas[s.txnid % 2] == s.metas[s.txnid % 2]
      && t.metas[t.txnid % 2].id == t.txnid && t.metas[t.txnid % 2].records == map[]
      && t.metas[t.txnid % 2].image == s.metas[s.txnid % 2].image[s.metas[s.txnid % 2].next := content]
  {
    hide IsRun, Enabled, Apply;
    var s := trace[|trace| - 1];
    var p := s.metas[s.txnid % 2].next;
    var g := Grown(Began(s));
    var t := Changed(g, p, content);
    CommitGrows(s, g, p);
    CommitChanges(g, t, p, content);
    trace', steps' := Continue(trace, steps, BeginTxn(0), Began(s));
    trace', steps' := Continue(trace', steps', AllocNew(1), g);
    trace', steps' := Continue(trace', steps', Modify(p, content), t);
    var u := SetPhase(t, Flushing(map[], {}));
    SaveIs(t);
    trace', steps' := Continue(trace', steps', SaveFreeList(map[]), u);
    var a, b := CommitFlushes(u, p);
    var c, d := CommitPublishes(b);
    trace', steps' := Continue(trace', steps', FlushPage(p), a);
    trace', steps' := Continue(trace', steps', Sync, b);
    trace', steps' := Continue(trace', steps', WriteMeta, c);
    trace', steps' := Continue(trace', steps', PublishTxn, d);
    assert (s.txnid + 2) % 2 == s.txnid % 2;
  }

  lemma SaveIs(t: State)
    requires Enabled(t, SaveFreeList(map[]))
    ensures t.writer.Writer? && Apply(t, SaveFreeList(map[])) == SetPhase(t, Flushing(map[], {}))
  {
  }

  // A reader that has validated its slot on the empty database.
  lemma ReaderValidates() returns (trace: seq<State>, steps: seq<Step>)
    ensures IsRun(trace, steps) && |trace| > 0
    ensures var t := trace[|trace| - 1];
      t.slots == [Slot(true, Some(0), Validated)] && t.writer.NoWriter? && t.txnid == 0 && t.metas == [EMPTY, EMPTY]
  {
    hide IsRun;
    var s := State([Slot(false, None, Unclaimed)], 0, 0, map[], [EMPTY, EMPTY], map[], map[], NoWriter, map[0 := EMPTY], 0);
    trace, steps := [s], [];
    Starts(s);
    var t := s.(slots := [Slot(false, None, Claiming)], numReaders := 1);
    trace, steps := Continue(trace, steps, ClaimReset(0), t);
    t := t.(slots := [Slot(true, None, Registered)]);
    trace, steps := Continue(trace, steps, ClaimPid(0), t);
    t := t.(slots := [Slot(true, None, Loaded(0))]);
    trace, steps := Continue(trace, steps, Load(0), t);
    t := t.(slots := [Slot(true, Some(0), Published)]);
    trace, steps := Continue(trace, steps, Store(0), t);
    t := t.(slots := [Slot(true, Some(0), Validated)]);
    trace, steps := Continue(trace, steps, Validate(0), t);
  }

  // The meta page is copied after the slot was validated.  Two commits in between, and the
  // reader works on a version two newer than the one its slot names.
  lemma LaterVersionCopied() returns (trace: seq<State>, steps: seq<Step>)
    ensures IsRun(trace, steps) && |trace| > 0
    ensures trace[|trace| - 1].slots == [Slot(true, Some(0), Reading(2))]
  {
    hide IsRun;
    trace, steps := ReaderValidates();
    trace, steps := CommitOnce(trace, steps, 7);
    trace, steps := CommitOnce(trace, steps, 8);
    var t := trace[|trace| - 1];
    trace, steps := Continue(trace, steps, CopyMeta(0), Apply(t, CopyMeta(0)));
  }

  lemma Starts(s: State)
    requires Init(s)
    ensures IsRun([s], [])
  {
  }
}
