// Whole runs of page operations against runs over a map from slot numbers to bytes.
module PageRuns {
  import opened Types
  import opened SlotBytes
  import opened SlotLayout
  import opened SlottedPage
  import opened PageCorrectness

  datatype PageOp =
    | InsertOp(record: seq<byte>) | UpdateOp(slot: SlotId, record: seq<byte>)
    | DeleteOp(slot: SlotId) | GetOp(slot: SlotId)

  datatype Outcome = Inserted(slot: SlotId) | Done | Fetched(record: seq<byte>) | Rejected(status: Status)

  // What a caller has to see to before an operation: the slot number is one of the directory's, no
  // stale empty record spoils the move, and a fresh directory entry reads as unused.
  ghost predicate Admissible(p: PageState, op: PageOp)
    requires p.WellFormed()
  {
    match op
    case InsertOp(record) => p.HasSpaceFor(|record|) && p.numFree == 0 ==> p.FreshSlotReadsUnused()
    case UpdateOp(slot, record) =>
      1 <= slot <= p.numSlots && (p.Live(slot) && FitsInstead(p, slot, |record|) ==> p.Settled(slot))
    case DeleteOp(slot) => 1 <= slot <= p.numSlots && (p.Live(slot) ==> p.Settled(slot))
    case GetOp(slot) => 1 <= slot <= p.numSlots
  }

  lemma AdmissibleIsClear(p: PageState, op: PageOp)
    requires p.WellFormed() && Admissible(p, op)
    ensures op.UpdateOp? && p.Live(op.slot) && FitsInstead(p, op.slot, |op.record|) ==> p.EntryClear(op.slot)
    ensures op.DeleteOp? && p.Live(op.slot) ==> p.EntryClear(op.slot)
  {
    hide PageState.EntryClear;
    if (op.UpdateOp? || op.DeleteOp?) && p.Live(op.slot) && p.Settled(op.slot) {
      SettledBlock(p, op.slot);
      ClearEntry(p, op.slot);
    }
  }

  ghost function Step(p: PageState, op: PageOp): (PageState, Outcome)
    requires p.WellFormed() && Admissible(p, op)
  {
    AdmissibleIsClear(p, op);
    match op
    case InsertOp(record) =>
      var r := Insert(p, record);
      (r.page, if r.status == Ok then Inserted(r.slot) else Rejected(r.status))
    case UpdateOp(slot, record) =>
      var r := Update(p, RecordId(p.pageNumber, slot), record);
      (r.page, if r.status == Ok then Done else Rejected(r.status))
    case DeleteOp(slot) =>
      var r := Delete(p, RecordId(p.pageNumber, slot));
      (r.page, if r.status == Ok then Done else Rejected(r.status))
    case GetOp(slot) =>
      (p, if p.Live(slot) then Fetched(p.Record(slot)) else Rejected(InvalidRecord))
  }

  // ----- the map machine -----

  type Store = map<SlotId, seq<byte>>

  const MAX_SLOTS: nat := DATA_SIZE / SLOT_SIZE

  // The greatest slot number up to n that holds a record, or 0.
  function Extent(m: Store, n: nat): nat {
    if n == 0 || n in m then n else Extent(m, n - 1)
  }

  function TotalBytes(m: Store, n: nat): nat {
    if n == 0 then 0 else TotalBytes(m, n - 1) + if n in m then |m[n]| else 0
  }

  // The least slot number from s that holds no record, looking no further than n + 1.
  function LowestFree(m: Store, s: nat, n: nat): nat
    decreases n - s
  {
    if s > n || s !in m then s else LowestFree(m, s + 1, n)
  }

  // What is left of the page when every slot number up to the greatest in use costs a directory entry.
  function Room(m: Store): int {
    var e := Extent(m, MAX_SLOTS);
    DATA_SIZE - SLOT_SIZE * e - TotalBytes(m, e)
  }

  // The specification: what each operation does to a map, and what it answers.
  function MapStep(m: Store, op: PageOp): (Store, Outcome) {
    match op
    case InsertOp(record) =>
      var e := Extent(m, MAX_SLOTS);
      var slot := LowestFree(m, 1, e);
      if |record| + (if slot > e then SLOT_SIZE else 0) > Room(m) then (m, Rejected(InsufficientSpace))
      else (m[slot := record], Inserted(slot))
    case UpdateOp(slot, record) =>
      if slot !in m then (m, Rejected(InvalidRecord))
      else if |record| > Room(m) + |m[slot]| then (m, Rejected(InsufficientSpace))
      else (m[slot := record], Done)
    case DeleteOp(slot) =>
      if slot !in m then (m, Rejected(InvalidRecord)) else (m - {slot}, Done)
    case GetOp(slot) =>
      (m, if slot in m then Fetched(m[slot]) else Rejected(InvalidRecord))
  }

  // ----- the header of a page is determined by its records -----

  lemma {:induction false} ExtentIs(m: Store, n: nat, e: nat)
    requires e <= n && (e == 0 || e in m) && forall t: SlotId | e < t <= n :: t !in m
    ensures Extent(m, n) == e
  {
    if e < n {
      ExtentIs(m, n - 1, e);
    }
  }

  lemma {:induction false} LowestFreeIs(m: Store, s: nat, n: nat, r: nat)
    requires s <= r <= n + 1 && (r == n + 1 || r !in m) && forall t: SlotId | s <= t < r :: t in m
    ensures LowestFree(m, s, n) == r
    decreases n + 1 - s
  {
    if s < r {
      LowestFreeIs(m, s + 1, n, r);
    }
  }

  lemma {:induction false} TotalBytesIs(m: Store, slots: seq<PageSlot>)
    requires forall t: SlotId | 1 <= t <= |slots| ::
               (t in m) == slots[t - 1].Used() && (t in m ==> |m[t]| == slots[t - 1].length)
    ensures TotalBytes(m, |slots|) == LiveBytes(slots)
  {
    if slots != [] {
      TotalBytesIs(m, slots[..|slots| - 1]);
    }
  }

  lemma RoomIsFreeSpace(p: PageState)
    requires p.WellFormed()
    ensures Extent(p.Records(), MAX_SLOTS) == p.numSlots && Room(p.Records()) == p.FreeSpace()
  {
    hide Tiled, Directory, CountUnused, BlankWhenUnused, LiveBytes, Extent, TotalBytes;
    RecordsInPage(p);
    SpaceConserved(p);
    ExtentIs(p.Records(), MAX_SLOTS, p.numSlots);
    TotalBytesIs(p.Records(), p.Slots());
  }

  // The test for space, as the map sees it.
  lemma SpaceIsRoom(p: PageState, record: seq<byte>)
    requires p.WellFormed()
    ensures InPage(p.Slots())
    ensures p.HasSpaceFor(|record|) <==> MapStep(p.Records(), InsertOp(record)).1 != Rejected(InsufficientSpace)
  {
    hide Tiled, Directory, Extent, LowestFree, Room, PageState.Records;
    RecordsInPage(p);
    RoomIsFreeSpace(p);
    SlotIsLowestFree(p);
  }

  lemma SlotIsLowestFree(p: PageState)
    requires p.WellFormed()
    ensures LowestFree(p.Records(), 1, p.numSlots) ==
            if p.numFree > 0 then FirstUnused(p.Slots()) + 1 else p.numSlots + 1
    ensures LowestFree(p.Records(), 1, p.numSlots) > p.numSlots <==> p.numFree == 0
  {
    hide Tiled, Directory, BlankWhenUnused, EndsUsed, LowestFree;
    RecordsInPage(p);
    CountIsZeroIffAllUsed(p.Slots());
    LowestFreeIs(p.Records(), 1, p.numSlots, if p.numFree > 0 then FirstUnused(p.Slots()) + 1 else p.numSlots + 1);
  }

  // ----- refinement -----

  lemma StepRefines(p: PageState, op: PageOp)
    requires p.WellFormed() && Admissible(p, op)
    ensures Step(p, op).0.WellFormed()
    ensures MapStep(p.Records(), op) == (Step(p, op).0.Records(), Step(p, op).1)
  {
    hide Insert, Update, Tiled, Directory, Deleted, BlankWhenUnused, EndsUsed, EmptyRecordsFrom, Extent, LowestFree,
         Room;
    AdmissibleIsClear(p, op);
    RoomIsFreeSpace(p);
    match op
    case InsertOp(record) =>
      InsertCorrect(p, record);
      SlotIsLowestFree(p);
      if Insert(p, record).status == Ok {
        InsertedSlot(p, record);
      }
    case UpdateOp(slot, record) =>
      UpdateCorrect(p, RecordId(p.pageNumber, slot), record);
      if p.Live(slot) {
        RecordLength(p, slot);
      }
    case DeleteOp(slot) =>
      if p.Live(slot) {
        DeletedRecords(p, slot);
      }
    case GetOp(slot) =>
  }

  lemma RecordLength(p: PageState, s: SlotId)
    requires p.WellFormed() && p.Live(s)
    ensures InPage(p.Slots()) && s in p.Records() && |p.Records()[s]| == p.Slots()[s - 1].length
  {
  }

  lemma InsertedSlot(p: PageState, record: seq<byte>)
    requires p.WellFormed() && Insert(p, record).status == Ok
    ensures Insert(p, record).slot == if p.numFree > 0 then FirstUnused(p.Slots()) + 1 else p.numSlots + 1
  {
  }

  ghost predicate AdmissibleRun(p: PageState, ops: seq<PageOp>)
    requires p.WellFormed()
    decreases |ops|
  {
    ops == [] ||
    (Admissible(p, ops[0]) && (StepRefines(p, ops[0]); AdmissibleRun(Step(p, ops[0]).0, ops[1..])))
  }

  ghost function Run(p: PageState, ops: seq<PageOp>): (PageState, seq<Outcome>)
    requires p.WellFormed() && AdmissibleRun(p, ops)
    decreases |ops|
  {
    if ops == [] then (p, [])
    else
      StepRefines(p, ops[0]);
      var (q, outcome) := Step(p, ops[0]);
      var (last, outcomes) := Run(q, ops[1..]);
      (last, [outcome] + outcomes)
  }

  function MapRun(m: Store, ops: seq<PageOp>): (Store, seq<Outcome>)
    decreases |ops|
  {
    if ops == [] then (m, [])
    else
      var (n, outcome) := MapStep(m, ops[0]);
      var (last, outcomes) := MapRun(n, ops[1..]);
      (last, [outcome] + outcomes)
  }

  // Over every run a page behaves as the map does: every answer, the slot numbers handed out and the
  // refusals for lack of space included, is a function of the records alone.
  lemma {:induction false} RunRefinesMap(p: PageState, ops: seq<PageOp>)
    requires p.WellFormed() && AdmissibleRun(p, ops)
    ensures Run(p, ops).0.WellFormed()
    ensures MapRun(p.Records(), ops) == (Run(p, ops).0.Records(), Run(p, ops).1)
    decreases |ops|
  {
    hide Tiled, Directory, BlankWhenUnused, EndsUsed, EmptyRecordsFrom, Step, Admissible, MapStep, PageState.Records;
    if ops != [] {
      StepRefines(p, ops[0]);
      RunRefinesMap(Step(p, ops[0]).0, ops[1..]);
    }
  }

  lemma NewPageWellFormed(number: PageId)
    ensures var p := NewPage().(pageNumber := number); p.WellFormed() && p.Records() == map[]
  {
  }

  // ----- without empty records -----

  ghost predicate NoEmptyRecords(p: PageState)
    requires p.WellFormed()
  {
    InPage(p.Slots()) && forall t | t in p.Records() :: p.Records()[t] != []
  }

  predicate StoresBytes(op: PageOp) {
    match op
    case InsertOp(record) => record != []
    case UpdateOp(_, record) => record != []
    case _ => true
  }

  // Then the slot number is in the directory and a fresh entry reads as unused: nothing else is asked for.
  ghost predicate InDirectory(p: PageState, op: PageOp)
    requires p.WellFormed()
  {
    match op
    case InsertOp(record) => p.HasSpaceFor(|record|) && p.numFree == 0 ==> p.FreshSlotReadsUnused()
    case UpdateOp(slot, _) => 1 <= slot <= p.numSlots
    case DeleteOp(slot) => 1 <= slot <= p.numSlots
    case GetOp(slot) => 1 <= slot <= p.numSlots
  }

  // Every deletion is admissible.
  lemma SettledWithoutEmptyRecords(p: PageState, s: SlotId)
    requires p.WellFormed() && p.Live(s)
    requires forall t | t in p.Records() :: p.Records()[t] != []
    ensures p.Settled(s)
  {
    assert InPage(p.Slots());
    forall k | 0 <= k < p.numSlots && p.Slots()[k].Used()
      ensures p.Slots()[k].length > 0
    {
      assert (k + 1) in p.Records();
    }
  }

  lemma StepStoresBytes(p: PageState, op: PageOp)
    requires p.WellFormed() && NoEmptyRecords(p) && StoresBytes(op) && InDirectory(p, op)
    ensures Admissible(p, op) && Step(p, op).0.WellFormed() && NoEmptyRecords(Step(p, op).0)
  {
    hide Tiled, Directory, BlankWhenUnused, EndsUsed, PageState.Settled, Step, Extent, LowestFree, Room,
         PageState.Records;
    if (op.UpdateOp? || op.DeleteOp?) && p.Live(op.slot) {
      SettledWithoutEmptyRecords(p, op.slot);
    }
    StepRefines(p, op);
    RecordsInPage(Step(p, op).0);
  }

  ghost predicate StoringRun(p: PageState, ops: seq<PageOp>)
    requires p.WellFormed() && NoEmptyRecords(p) && forall i | 0 <= i < |ops| :: StoresBytes(ops[i])
    decreases |ops|
  {
    ops == [] ||
    (InDirectory(p, ops[0]) && (StepStoresBytes(p, ops[0]); StoringRun(Step(p, ops[0]).0, ops[1..])))
  }

  // Over every run in which no empty record is stored, a page behaves as the map does with no guard on deletions
  // and updates.
  lemma {:induction false} StoringRunRefinesMap(p: PageState, ops: seq<PageOp>)
    requires p.WellFormed() && NoEmptyRecords(p) && forall i | 0 <= i < |ops| :: StoresBytes(ops[i])
    requires StoringRun(p, ops)
    ensures AdmissibleRun(p, ops) && Run(p, ops).0.WellFormed() && NoEmptyRecords(Run(p, ops).0)
    ensures MapRun(p.Records(), ops) == (Run(p, ops).0.Records(), Run(p, ops).1)
    decreases |ops|
  {
    hide Tiled, Directory, BlankWhenUnused, EndsUsed, Step, Admissible, InDirectory, MapStep, PageState.Records,
         NoEmptyRecords;
    if ops != [] {
      StepStoresBytes(p, ops[0]);
      StoringRunRefinesMap(Step(p, ops[0]).0, ops[1..]);
      assert AdmissibleRun(p, ops);
    }
    RunRefinesMap(p, ops);
  }
}
