// The layers together: over any run of pool operations and of page operations on pinned pages, a file of slotted
// pages behaves as a map from pages to maps from slots to records.
module RecordStore {
  import opened Types
  import opened SlotLayout
  import opened SlottedPage
  import opened Files
  import opened HashTable
  import opened BufferPool
  import opened BufferConsistency
  import opened BufferCorrectness
  import opened RecordOrder
  import opened SharedFile
  import BufferRuns
  import PageRuns

  // OnPage is a client working on a page through the pointer it was given when it pinned the page.
  datatype StoreOp = OnPool(pool: BufferRuns.PoolOp) | OnPage(key: Key, page: PageRuns.PageOp)

  datatype StoreAnswer = PoolAnswer(pool: BufferRuns.Answer) | PageAnswer(page: PageRuns.Outcome)

  // What a page stands for, as clients see it.
  ghost function Store(s: Pool, key: Key): Option<PageRuns.Store>
    requires InOrder(s, key.file)
  {
    ViewInOrder(s, key);
    var view := s.View(key);
    if view.None? then None else Some(view.value.Records())
  }

  lemma ViewInOrder(s: Pool, key: Key)
    requires InOrder(s, key.file)
    ensures var view := s.View(key);
            view.Some? ==> view.value.WellFormed() && view.value.Readable() && InPage(view.value.Slots())
  {
    assert Key(key.file, key.page) == key;
  }

  // The page a client works on: the frame its pointer leads to.
  ghost function PinnedPage(s: Pool, key: Key): PageState
    requires s.Consistent() && s.Pins(key) > 0
  {
    assert s.Caches(s.table[key], key);
    s.frames[s.table[key]]
  }

  ghost predicate Admissible(s: Pool, op: StoreOp)
    requires s.Inv()
  {
    match op
    case OnPool(o) => BufferRuns.Admissible(s, o)
    case OnPage(key, o) =>
      && key.file !in s.aliases && s.Pins(key) > 0
      && PinnedPage(s, key).WellFormed() && PageRuns.Admissible(PinnedPage(s, key), o)
  }

  // Nobody writes pages of the file other than as slotted pages. In other files they may.
  predicate Slotted(op: StoreOp, f: FileId) {
    op.OnPool? && op.pool.Change? ==> op.pool.key.file != f
  }

  ghost function Step(s: Pool, op: StoreOp): (Pool, StoreAnswer)
    requires s.Inv() && Admissible(s, op)
  {
    match op
    case OnPool(o) =>
      var (r, answer) := BufferRuns.Step(s, o);
      (r, PoolAnswer(answer))
    case OnPage(key, o) =>
      var (page, outcome) := PageRuns.Step(PinnedPage(s, key), o);
      (WriteFrame(s, key, page), PageAnswer(outcome))
  }

  // The specification: what an operation makes of the records of one page.
  function Effect(op: StoreOp, answer: StoreAnswer, key: Key, before: Option<PageRuns.Store>): Option<PageRuns.Store> {
    match op
    case OnPool(o) =>
      if !(answer.PoolAnswer? && answer.pool.status == PoolOk) then before
      else if o.Alloc? && key == Key(o.file, answer.pool.page) then Some(map[])
      else if o == BufferRuns.Dispose(key) then None
      else before
    case OnPage(k, o) =>
      if k == key && before.Some? then Some(PageRuns.MapStep(before.value, o).0) else before
  }

  // What an operation on a page answers is what the map of the page says.
  predicate Explained(op: StoreOp, answer: StoreAnswer, key: Key, before: Option<PageRuns.Store>) {
    op.OnPage? && op.key == key ==> before.Some? && answer == PageAnswer(PageRuns.MapStep(before.value, op.page).1)
  }

  lemma PinnedPageIsView(s: Pool, key: Key)
    requires s.Consistent() && s.Pins(key) > 0
    ensures s.View(key) == Some(s.Face(key, PinnedPage(s, key))) && s.Belongs(key, PinnedPage(s, key))
  {
    hide File.WellFormed, File.UsedPages, Shown;
    assert s.Caches(s.table[key], key);
    assert s.FrameConsistent(s.table[key]);
    CachedIsOnDisk(s, key);
  }

  // Next pointers are no part of what a page stands for.
  lemma SameRecordsInPage(blob: bool, page: PageState)
    ensures Shown(blob, page).WellFormed() == page.WellFormed()
    ensures page.WellFormed() ==>
              && InPage(page.Slots()) && InPage(Shown(blob, page).Slots())
              && Shown(blob, page).Records() == page.Records()
  {
    if page.WellFormed() {
      hide Tiled;
      var p, q := page.Records(), Shown(blob, page).Records();
      assert forall t: SlotId :: Shown(blob, page).Live(t) == page.Live(t);
      assert forall t | t in p :: q[t] == p[t];
    }
  }

  lemma PageStepKeepsNumber(p: PageState, op: PageRuns.PageOp)
    requires p.WellFormed() && PageRuns.Admissible(p, op)
    ensures PageRuns.Step(p, op).0.pageNumber == p.pageNumber
  {
  }

  // A new page has no records, in either kind of file.
  lemma NewPageRecords(blob: bool, number: PageId)
    ensures FreshPage(blob, number).WellFormed() && InPage(FreshPage(blob, number).Slots())
    ensures FreshPage(blob, number).Records() == map[]
  {
    PageRuns.NewPageWellFormed(number);
    PageRuns.NewPageWellFormed(INVALID_NUMBER);
    assert NewPage().(pageNumber := INVALID_NUMBER) == NewPage();
  }

  lemma StepCorrect(s: Pool, op: StoreOp, f: FileId)
    requires s.Inv() && Admissible(s, op) && InOrder(s, f) && Slotted(op, f) && f !in s.aliases
    ensures var (r, answer) := Step(s, op);
            && r.Inv() && InOrder(r, f) && r.aliases == s.aliases && r.disk.Keys == s.disk.Keys
            && (forall p: PageId :: Store(r, Key(f, p)) == Effect(op, answer, Key(f, p), Store(s, Key(f, p))))
            && (forall p: PageId :: Explained(op, answer, Key(f, p), Store(s, Key(f, p))))
  {
    hide Step, Store, Effect, InOrder, Pool.Inv, Admissible, Slotted;
    var (r, answer) := Step(s, op);
    StepKeepsInv(s, op);
    match op {
      case OnPool(o) => PoolStepInOrder(s, o, f);
      case OnPage(k, o) => PageStepInOrder(s, k, o, f);
    }
    forall p: PageId
      ensures Store(r, Key(f, p)) == Effect(op, answer, Key(f, p), Store(s, Key(f, p)))
      ensures Explained(op, answer, Key(f, p), Store(s, Key(f, p)))
    {
      match op
      case OnPool(o) => PoolStepCorrect(s, o, Key(f, p));
      case OnPage(k, o) => PageStepCorrect(s, k, o, Key(f, p));
    }
  }

  // Whatever is written to pages of other files.
  lemma StepKeepsInv(s: Pool, op: StoreOp)
    requires s.Inv() && Admissible(s, op)
    ensures var r := Step(s, op).0; r.Inv() && r.aliases == s.aliases && r.disk.Keys == s.disk.Keys
  {
    hide Pool.Consistent, Pool.Coherent, Pool.OthersRead, Pool.View, PageState.WellFormed, Shown, PageRuns.Step,
         PageRuns.Admissible, PinnedPage, BufferRuns.Step, BufferRuns.Possible;
    match op
    case OnPool(o) =>
      BufferRuns.StepCorrect(s, o);
      BufferRuns.StepConsistent(s, o);
    case OnPage(k, o) =>
      PinnedPageIsView(s, k);
      PageStepKeepsNumber(PinnedPage(s, k), o);
      WriteFrameCorrect(s, k, PageRuns.Step(PinnedPage(s, k), o).0);
  }

  lemma PoolStepInOrder(s: Pool, o: BufferRuns.PoolOp, f: FileId)
    requires s.Inv() && Admissible(s, OnPool(o)) && InOrder(s, f) && Slotted(OnPool(o), f) && f !in s.aliases
    ensures InOrder(Step(s, OnPool(o)).0, f)
  {
    hide Pool.Consistent, Pool.Coherent, Pool.OthersRead, Pool.View, PageState.WellFormed, NewPage, Shown,
         FreshPage;
    BufferRuns.StepCorrect(s, o);
    var r, answer := BufferRuns.Step(s, o).0, BufferRuns.Step(s, o).1;
    forall p: PageId, page: PageState | r.View(Key(f, p)) == Some(page)
      ensures page.WellFormed()
    {
      NewPageRecords(f in s.BlobFiles(), answer.page);
      assert r.View(Key(f, p)) == BufferRuns.Effect(s.BlobFiles(), o, answer, Key(f, p), s.View(Key(f, p)));
    }
  }

  lemma PoolStepCorrect(s: Pool, o: BufferRuns.PoolOp, key: Key)
    requires s.Inv() && Admissible(s, OnPool(o)) && Slotted(OnPool(o), key.file) && key.file !in s.aliases
    requires InOrder(s, key.file) && InOrder(Step(s, OnPool(o)).0, key.file)
    ensures var (r, answer) := Step(s, OnPool(o)); Store(r, key) == Effect(OnPool(o), answer, key, Store(s, key))
  {
    hide Pool.Inv, Pool.View, PageState.WellFormed, NewPage, Shown, InOrder, PageState.Records, FreshPage;
    BufferRuns.StepCorrect(s, o);
    NewPageRecords(key.file in s.BlobFiles(), key.page);
  }

  lemma PageStepInOrder(s: Pool, k: Key, o: PageRuns.PageOp, f: FileId)
    requires s.Inv() && Admissible(s, OnPage(k, o)) && InOrder(s, f)
    ensures InOrder(Step(s, OnPage(k, o)).0, f)
  {
    hide Pool.Consistent, Pool.Coherent, Pool.OthersRead, Pool.View, PageState.WellFormed, Shown, PageRuns.Step,
         PageRuns.Admissible, PinnedPage;
    var r, page := Step(s, OnPage(k, o)).0, PageRuns.Step(PinnedPage(s, k), o).0;
    PinnedPageIsView(s, k);
    PageStepKeepsNumber(PinnedPage(s, k), o);
    WriteFrameCorrect(s, k, page);
    PageRuns.StepRefines(PinnedPage(s, k), o);
    SameRecordsInPage(s.IsBlob(k.file), page);
    forall p: PageId, seen: PageState | r.View(Key(f, p)) == Some(seen)
      ensures seen.WellFormed()
    {
      assert Key(f, p) != k ==> r.View(Key(f, p)) == s.View(Key(f, p));
    }
  }

  lemma PageStepCorrect(s: Pool, k: Key, o: PageRuns.PageOp, key: Key)
    requires s.Inv() && Admissible(s, OnPage(k, o))
    requires InOrder(s, key.file) && InOrder(Step(s, OnPage(k, o)).0, key.file)
    ensures var (r, answer) := Step(s, OnPage(k, o));
            && Store(r, key) == Effect(OnPage(k, o), answer, key, Store(s, key))
            && Explained(OnPage(k, o), answer, key, Store(s, key))
  {
    hide Pool.Consistent, Pool.Coherent, Pool.OthersRead, Pool.View, PageState.WellFormed, Shown, PageRuns.Step,
         PageRuns.Admissible, PinnedPage, InOrder, PageState.Records, PageRuns.MapStep;
    var p, page := PinnedPage(s, k), PageRuns.Step(PinnedPage(s, k), o).0;
    PinnedPageIsView(s, k);
    PageStepKeepsNumber(p, o);
    WriteFrameCorrect(s, k, page);
    PageRuns.StepRefines(p, o);
    SameRecordsInPage(s.IsBlob(k.file), p);
    SameRecordsInPage(s.IsBlob(k.file), page);
  }

  // ----- runs -----

  ghost predicate AdmissibleRun(s: Pool, ops: seq<StoreOp>)
    requires s.Inv()
    decreases |ops|
  {
    ops == [] ||
    (Admissible(s, ops[0]) && (StepKeepsInv(s, ops[0]); AdmissibleRun(Step(s, ops[0]).0, ops[1..])))
  }

  ghost function Run(s: Pool, ops: seq<StoreOp>): (Pool, seq<StoreAnswer>)
    requires s.Inv() && AdmissibleRun(s, ops)
    decreases |ops|
  {
    if ops == [] then (s, [])
    else
      StepKeepsInv(s, ops[0]);
      var (q, answer) := Step(s, ops[0]);
      var (last, answers) := Run(q, ops[1..]);
      (last, [answer] + answers)
  }

  function Effects(ops: seq<StoreOp>, answers: seq<StoreAnswer>, key: Key,
                   before: Option<PageRuns.Store>): Option<PageRuns.Store>
    decreases |ops|
  {
    if ops == [] || answers == [] then before
    else Effects(ops[1..], answers[1..], key, Effect(ops[0], answers[0], key, before))
  }

  // Every answer of an operation on the page is what the map of the page says at that point of the run.
  predicate AllExplained(ops: seq<StoreOp>, answers: seq<StoreAnswer>, key: Key, before: Option<PageRuns.Store>)
    decreases |ops|
  {
    ops == [] || answers == [] ||
    (Explained(ops[0], answers[0], key, before) &&
     AllExplained(ops[1..], answers[1..], key, Effect(ops[0], answers[0], key, before)))
  }

  // Over every run, with any interleaving of clients and any eviction, flush or refusal in between, each page of a
  // file of slotted pages behaves as a map from slots to records that only the operations on that page change,
  // whatever clients of other files write there.
  lemma {:induction false} RunRefinesStore(s: Pool, ops: seq<StoreOp>, key: Key)
    requires s.Inv() && AdmissibleRun(s, ops) && key.file !in s.aliases
    requires InOrder(s, key.file) && forall i | 0 <= i < |ops| :: Slotted(ops[i], key.file)
    ensures var (r, answers) := Run(s, ops);
            && r.Inv() && InOrder(r, key.file) && |answers| == |ops|
            && r.aliases == s.aliases && r.disk.Keys == s.disk.Keys
            && Store(r, key) == Effects(ops, answers, key, Store(s, key))
            && AllExplained(ops, answers, key, Store(s, key))
    decreases |ops|
  {
    hide Pool.Inv, InOrder, Store, Step, Admissible, Effect, Explained, Slotted;
    if ops != [] {
      StepCorrect(s, ops[0], key.file);
      assert Key(key.file, key.page) == key;
      var q := Step(s, ops[0]).0;
      RunRefinesStore(q, ops[1..], key);
      var answers := Run(s, ops).1;
      assert answers[1..] == Run(q, ops[1..]).1;
    }
  }

  // ----- scans after runs -----

  // A scan through an object of its own, opened after the run, lists exactly the records that the maps hold, in
  // order and with their bytes, provided that what was changed has been written.
  lemma ScanAfterRun(s: Pool, ops: seq<StoreOp>, f: FileId, g: FileId)
    requires s.Inv() && AdmissibleRun(s, ops) && f in s.disk
    requires InOrder(s, f) && forall i | 0 <= i < |ops| :: Slotted(ops[i], f)
    requires var r := Run(s, ops).0; Unused(r, g) && Written(r, f)
    ensures Opened(Run(s, ops).0, f, g).Known(g) && InOrder(Opened(Run(s, ops).0, f, g), g)
    ensures var t, answers := Opened(Run(s, ops).0, f, g), Run(s, ops).1;
            && Sorted(AllRecords(t, g))
            && forall rid: RecordId ::
                 var store := Effects(ops, answers, Key(f, rid.pageNumber), Store(s, Key(f, rid.pageNumber)));
                 && (rid in AllRecords(t, g) <==> store.Some? && rid.slotNumber in store.value)
                 && (rid in AllRecords(t, g) ==>
                       IsRecord(t, g, rid) && RecordAt(t, g, rid) == store.value[rid.slotNumber])
  {
    hide Pool.Coherent, Pool.OthersRead, Pool.Consistent, Run, Effects, AllExplained, AllRecords, Sorted, Pool.View,
         AdmissibleRun, PageState.WellFormed, PageState.Slots, Written, Opened, RecordAt, IsRecord, Store;
    var r := Run(s, ops).0;
    FirstObject(s, f);
    RunRefinesStore(s, ops, Key(f, 0));
    FirstObject(r, f);
    OpenedConsistent(r, f, g);
    SecondScanWritten(r, f, g);
    AllRecordsExact(r, f);
    AllRecordsExact(Opened(r, f, g), g);
    forall rid: RecordId
      ensures var store := Store(r, Key(f, rid.pageNumber));
              IsRecord(r, f, rid) <==> store.Some? && rid.slotNumber in store.value
      ensures IsRecord(r, f, rid) ==> Store(r, Key(f, rid.pageNumber)).value[rid.slotNumber] == RecordAt(r, f, rid)
      ensures Store(r, Key(f, rid.pageNumber))
           == Effects(ops, Run(s, ops).1, Key(f, rid.pageNumber), Store(s, Key(f, rid.pageNumber)))
    {
      RunRefinesStore(s, ops, Key(f, rid.pageNumber));
      StoreRecords(r, f, rid);
    }
  }

  lemma FirstObject(s: Pool, f: FileId)
    requires s.Consistent() && f in s.disk
    ensures f !in s.aliases && s.Known(f)
  {
  }

  lemma StoreRecords(s: Pool, f: FileId, rid: RecordId)
    requires InOrder(s, f)
    ensures var store := Store(s, Key(f, rid.pageNumber));
            && (IsRecord(s, f, rid) <==> store.Some? && rid.slotNumber in store.value)
            && (IsRecord(s, f, rid) ==> store.value[rid.slotNumber] == RecordAt(s, f, rid))
  {
    hide Pool.View, PageState.WellFormed, PageState.Slots;
  }

  // A flush at the end of the run that succeeds is enough.
  lemma {:induction false} LastFlushWrites(s: Pool, ops: seq<StoreOp>, f: FileId)
    requires s.Inv() && AdmissibleRun(s, ops)
    requires ops != [] && ops[|ops| - 1] == OnPool(BufferRuns.Flush(f))
    requires var answers := Run(s, ops).1;
             |answers| == |ops| && answers[|ops| - 1] == PoolAnswer(BufferRuns.Answer(PoolOk, 0))
    ensures Written(Run(s, ops).0, f)
    decreases |ops|
  {
    hide Pool.Consistent, Pool.Coherent, Pool.OthersRead, Admissible, Written, FlushFile;
    StepKeepsInv(s, ops[0]);
    if |ops| == 1 {
      LastOfOne(s, ops);
      FlushWrites(s, f);
    } else {
      var q := Step(s, ops[0]).0;
      assert Run(s, ops).1[1..] == Run(q, ops[1..]).1;
      LastFlushWrites(q, ops[1..], f);
    }
  }

  lemma FlushWrites(s: Pool, f: FileId)
    requires s.Inv() && Admissible(s, OnPool(BufferRuns.Flush(f)))
    ensures var (r, answer) := Step(s, OnPool(BufferRuns.Flush(f)));
            answer == PoolAnswer(BufferRuns.Answer(PoolOk, 0)) ==> Written(r, f)
  {
    hide Pool.Consistent, Pool.Coherent, Pool.OthersRead, Written, FlushFile;
    if FlushFile(s, f).status == PoolOk {
      FlushedIsWritten(s, f);
    }
  }

  lemma LastOfOne(s: Pool, ops: seq<StoreOp>)
    requires s.Inv() && |ops| == 1 && AdmissibleRun(s, ops)
    ensures Admissible(s, ops[0])
    ensures Run(s, ops) == (Step(s, ops[0]).0, [Step(s, ops[0]).1])
  {
    hide Pool.Consistent, Pool.Coherent, Pool.OthersRead, Admissible, Step;
    StepKeepsInv(s, ops[0]);
    assert ops[1..] == [];
    var q := Step(s, ops[0]).0;
    assert AdmissibleRun(q, []) && Run(q, []) == (q, []);
    assert [Step(s, ops[0]).1] + [] == [Step(s, ops[0]).1];
  }
}
