// Records that clients have inserted: one that a scan, which reads through a File object of its own, misses, and one
// that is lost when the pool is destroyed while its page is pinned.
module PoolExamples {
  import opened Types
  import opened SlotBytes
  import opened SlottedPage
  import opened Files
  import PagedFile
  import FileCorrectness
  import opened HashTable
  import opened Clock
  import opened BufferPool
  import opened BufferConsistency
  import opened BufferDisk
  import opened BufferCorrectness
  import opened BufferManager
  import opened RecordOrder
  import opened SharedFile
  import opened ScanSteps
  import opened RecordScan
  import BufferRuns
  import IndexScan
  import PageCorrectness
  import PageLimits
  import PageRuns

  const PAGE: Key := Key(1, 1)

  function NewFile(): File {
    Paged(PagedFile.NewFile())
  }

  function EmptyPage(): PageState {
    NewPage().(pageNumber := 1)
  }

  // A pool of two frames over one file with one page, which is pinned. On disk the page is still empty.
  ghost predicate OnePage(s: Pool, page: PageState, pins: nat) {
    && s.Inv() && s.aliases == map[] && !s.IsBlob(1) && |s.descs| == 2 && 1 in s.disk && 2 !in s.disk
    && (forall key :: s.OnDisk(key) <==> key == PAGE)
    && s.DiskFace(PAGE) == EmptyPage()
    && s.View(PAGE) == Some(page) && s.Pins(PAGE) == pins > 0
  }

  lemma FirstAllocation()
    ensures NewFile().WellFormed() && NewFile().UsedPages() == {} && AllocatedFile(NewFile()).number == 1
    ensures MayAllocate(NewFile()) && NewFile().Paged?
  {
    FileCorrectness.NewFileWellFormed();
  }

  lemma AllocStep(s: Pool)
    requires s.Inv() && s.aliases == map[] && s.disk == map[1 := NewFile()]
    requires s.descs == [CLEARED, CLEARED] && s.table == map[]
    ensures var r := BufferPool.AllocPage(s, 1);
            r.status == PoolOk && r.page == 1 && OnePage(r.pool, EmptyPage(), 1)
  {
    hide File.WellFormed, File.UsedPages, NewFile, AllocatedFile, BufferPool.AllocPage, Pool.Coherent,
         PinnedUntouched, PinnedStay, IsVersion;
    FirstAllocation();
    AllocPageKeeps(s, 1);
    AllocPageCorrect(s, 1);
    AllocPageVersions(s, 1);
    NoPages(s);
    var r := BufferPool.AllocPage(s, 1).pool;
    OnDiskIsVersion(r, PAGE);
    assert !AllPinned(s) by { assert !s.descs[0].valid; }
  }

  lemma NoPages(s: Pool)
    requires s.aliases == map[] && s.disk == map[1 := NewFile()] && s.descs == [CLEARED, CLEARED]
    ensures forall key :: !s.OnDisk(key)
    ensures forall key, page :: !IsVersion(s, key, page)
  {
    FirstAllocation();
  }

  lemma PinStep(s: Pool, page: PageState)
    requires OnePage(s, page, 1)
    ensures var r := BufferPool.ReadPage(s, PAGE); r.status == PoolOk && OnePage(r.pool, page, 2)
  {
    hide File.WellFormed, File.UsedPages, Pool.Coherent, PinnedUntouched, PinnedStay;
    ReadPageKeeps(s, PAGE);
    ReadPageCorrect(s, PAGE);
    CachedIsOnDisk(s, PAGE);
  }

  lemma ChangeStep(s: Pool, page: PageState, changed: PageState, pins: nat)
    requires OnePage(s, page, pins) && changed.pageNumber == 1 && changed.nextPage == 0
    ensures PAGE in s.table && OnePage(WriteFrame(s, PAGE, changed), changed, pins)
  {
    hide File.WellFormed, File.UsedPages, Pool.Coherent, PinnedUntouched, PinnedStay;
    WriteFrameKeeps(s, PAGE, changed);
    WriteFrameCorrect(s, PAGE, changed);
  }

  lemma UnPinStep(s: Pool, page: PageState)
    requires OnePage(s, page, 2)
    ensures var r := BufferPool.UnPinPage(s, PAGE, true); r.status == PoolOk && OnePage(r.pool, page, 1)
  {
    hide File.WellFormed, File.UsedPages, Pool.Coherent, PinnedUntouched, PinnedStay;
    UnPinPageKeeps(s, PAGE, true);
    UnPinPageCorrect(s, PAGE, true);
  }

  lemma InsertIntoNew(record: seq<byte>)
    requires |record| <= DATA_SIZE - SLOT_SIZE
    ensures EmptyPage().WellFormed()
    ensures var page := Insert(EmptyPage(), record).page;
            && page.WellFormed() && page.Live(1) && page.pageNumber == 1 && page.nextPage == 0
            && Insert(EmptyPage(), record).status == Ok && page.Record(1) == record
  {
    hide Insert, SlotLayout.Tiled, Directory;
    PageRuns.NewPageWellFormed(1);
    NewSlotUnused();
    PageCorrectness.InsertCorrect(EmptyPage(), record);
    PageRuns.InsertedSlot(EmptyPage(), record);
    PageLimits.InsertedPlace(EmptyPage(), record);
    var page := Insert(EmptyPage(), record).page;
    PageCorrectness.RecordsInPage(page);
    assert page.Records()[1] == record;
  }

  lemma NewSlotUnused()
    ensures EmptyPage().FreshSlotReadsUnused()
  {
  }

  // ----- what a scan opened now finds -----

  lemma PinnedFrames(s: Pool, page: PageState, pins: nat)
    requires OnePage(s, page, pins)
    ensures s.OthersRead() && UnwrittenPinned(s, 1) && !AllPinned(s) && Unused(s, 2) && s.Known(1)
  {
    hide File.WellFormed, File.UsedPages;
    forall i | 0 <= i < 2 && s.descs[i].valid
      ensures s.descs[i].pinCnt > 0 && PAGE in s.table && s.table[PAGE] == i
    {
      assert s.FrameConsistent(i);
      assert s.OnDisk(Key(s.descs[i].file, s.descs[i].page));
    }
    OneCached(s, page, pins);
  }

  lemma OneCached(s: Pool, page: PageState, pins: nat)
    requires OnePage(s, page, pins)
    ensures !(s.descs[0].valid && s.descs[1].valid)
  {
    hide File.WellFormed, File.UsedPages, Pool.OnDisk, Pool.View;
    assert s.FrameConsistent(0) && s.FrameConsistent(1);
  }

  lemma VersionsInOrder(s: Pool, page: PageState, pins: nat)
    requires OnePage(s, page, pins) && page.WellFormed() && Unused(s, 2) && s.Known(1)
    ensures Sound(Opened(s, 1, 2), 2)
  {
    hide File.WellFormed, File.UsedPages, PageState.WellFormed;
    PageRuns.NewPageWellFormed(1);
    CachedIsOnDisk(s, PAGE);
    assert s.Caches(s.table[PAGE], PAGE);
    var t := Opened(s, 1, 2);
    forall p: PageId, version | IsVersion(t, Key(2, p), version)
      ensures version.WellFormed()
    {
      if t.OnDisk(Key(2, p)) && version == t.DiskFace(Key(2, p)) {
        assert s.OnDisk(Key(1, p)) && t.DiskPage(Key(2, p)) == s.DiskPage(Key(1, p));
      } else {
        var i :| 0 <= i < |t.descs| && Holds(t, i, Key(2, p), version);
        assert s.FrameConsistent(i);
        assert s.OnDisk(Key(s.descs[i].file, s.descs[i].page));
      }
    }
  }

  lemma NothingOnDisk(s: Pool, page: PageState, pins: nat)
    requires OnePage(s, page, pins) && Unused(s, 2) && s.Known(1)
    ensures var t := Opened(s, 1, 2); t.Known(2) && InOrder(t, 2) && AllRecords(t, 2) == []
  {
    hide File.WellFormed, File.UsedPages;
    PageRuns.NewPageWellFormed(1);
    OpenedConsistent(s, 1, 2);
    var t := Opened(s, 1, 2);
    forall p
      ensures t.View(Key(2, p)) == if p == 1 then Some(EmptyPage()) else None
    {
      assert s.OnDisk(Key(1, p)) <==> Key(1, p) == PAGE;
    }
    AllRecordsExact(t, 2);
    SortedUnique(AllRecords(t, 2), []);
  }

  lemma SeenByClients(s: Pool, page: PageState, pins: nat, r: Pool, holds: Option<Key>)
    requires OnePage(s, page, pins) && page.WellFormed() && page.Live(1) && Unused(s, 2) && s.Known(1)
    requires Harmless(Opened(s, 1, 2), None, r, holds, 2, false)
    ensures r.Inv() && r.View(PAGE) == Some(page)
  {
    hide File.WellFormed, File.UsedPages, Pool.View, Undisturbed, StillSame, Pool.Coherent, Pool.Consistent;
    OpenedConsistent(s, 1, 2);
  }

  // One client allocates a page in a new file, and another pins it too.
  method AllocateAndPin() returns (bufMgr: BufMgr)
    ensures fresh(bufMgr) && fresh(bufMgr.hashTable) && fresh(bufMgr.hashTable.ht) && fresh(bufMgr.hashTable.nodes)
    ensures fresh(bufMgr.bufDescTable) && fresh(bufMgr.bufPool)
    ensures bufMgr.Valid() && OnePage(bufMgr.State(), EmptyPage(), 2)
  {
    hide File.WellFormed, File.UsedPages, NewFile, AllocatedFile, Pool.Consistent, Pool.Coherent, OnePage,
         PageState.WellFormed, BufHashTbl.Valid, NewPage, AllPinned, Pool.View, Pool.OthersRead;
    FirstAllocation();
    bufMgr := new BufMgr(2, map[1 := NewFile()]);
    assert bufMgr.bufDescTable[..] == [CLEARED, CLEARED];
    AllocStep(bufMgr.State());
    var status, number, frame := bufMgr.AllocPage(1);
    PinStep(bufMgr.State(), EmptyPage());
    Usable(bufMgr.State(), EmptyPage(), 1);
    status, frame := bufMgr.ReadPage(1, number);
  }

  // A record is inserted and the page unpinned as dirty, while one pin is left.
  method InsertAndUnPin(bufMgr: BufMgr, record: seq<byte>)
    requires |record| <= DATA_SIZE - SLOT_SIZE
    requires bufMgr.Valid() && OnePage(bufMgr.State(), EmptyPage(), 2)
    modifies bufMgr.bufDescTable, bufMgr.bufPool
    ensures bufMgr.Valid() && EmptyPage().WellFormed() && OnePage(bufMgr.State(), Insert(EmptyPage(), record).page, 1)
  {
    hide File.WellFormed, File.UsedPages, Pool.Consistent, Pool.Coherent, OnePage, Insert,
         PageState.WellFormed, BufHashTbl.Valid, NewPage, Pool.View, Pool.OthersRead;
    InsertIntoNew(record);
    var page := Insert(EmptyPage(), record).page;
    ChangeStep(bufMgr.State(), EmptyPage(), page, 2);
    Usable(bufMgr.State(), EmptyPage(), 2);
    bufMgr.ChangePage(1, 1, page);
    UnPinStep(bufMgr.State(), page);
    var _ := bufMgr.UnPinPage(1, 1, true);
  }

  // Clients see the record. A scan opened now comes to the end of the file at once.
  method UnwrittenRecordMissed(record: seq<byte>) returns (bufMgr: BufMgr, outcome: ScanOutcome)
    requires |record| <= DATA_SIZE - SLOT_SIZE
    ensures bufMgr.Valid() && outcome == EndOfFile
    ensures var view := bufMgr.State().View(PAGE);
            view.Some? && view.value.WellFormed() && view.value.Live(1) && view.value.Record(1) == record
  {
    hide File.WellFormed, File.UsedPages, Pool.Consistent, Pool.Coherent, OnePage, Insert,
         PageState.WellFormed, BufHashTbl.Valid, InOrder, Sound, Harmless, Still, AllRecords, Rest, NewPage, AllPinned,
         UnwrittenPinned, Pool.View, Pool.OthersRead, Opened, Unused;
    InsertIntoNew(record);
    bufMgr := AllocateAndPin();
    InsertAndUnPin(bufMgr, record);
    ghost var s := bufMgr.State();
    var page := Insert(EmptyPage(), record).page;
    PinnedFrames(s, page, 1);
    VersionsInOrder(s, page, 1);
    NothingOnDisk(s, page, 1);
    Usable(s, page, 1);
    StillWhenPinned(s, 1, 2);
    IndexScan.SamePins(s, 1, 2);
    var scan := new FileScan(1, 2, bufMgr);
    outcome := scan.ScanNext();
    SeenByClients(s, page, 1, bufMgr.State(), scan.Held());
  }

  lemma Usable(s: Pool, page: PageState, pins: nat)
    requires OnePage(s, page, pins)
    ensures s.Consistent() && s.Known(1) && !s.IsBlob(1) && s.Home(1) == 1 && s.Pins(PAGE) == pins > 0 && 1 in s.disk
  {
  }

  // ----- a restart -----

  ghost predicate NoneDirty(s: Pool) {
    forall i | 0 <= i < |s.descs| :: !s.descs[i].dirty
  }

  lemma {:induction false} NothingWrittenBack(s: Pool, i: nat)
    requires s.Consistent() && NoneDirty(s) && i <= |s.descs|
    ensures DestroyFrom(s, i) == s.disk
    decreases |s.descs| - i
  {
    hide Pool.Consistent;
    if i < |s.descs| {
      NothingWrittenBack(s, i + 1);
    }
  }

  lemma AllocatedClean(s: Pool, f: FileId)
    requires s.Consistent() && s.Known(f) && NoneDirty(s)
    ensures NoneDirty(BufferPool.AllocPage(s, f).pool)
  {
    hide File.WellFormed, File.UsedPages, Choose, AllocatedFile;
    AllocBufConsistent(s);
    SweptConsistent(s);
    SweepKeeps(s.descs, s.hand);
  }

  // A new pool of two frames over a file with no pages.
  function Start(frames: seq<PageState>): Pool {
    Pool(1, [CLEARED, CLEARED], frames, map[], map[1 := NewFile()], map[])
  }

  // From a new file: a client allocates a page, inserts a record and has not unpinned the page yet, as it may.
  // The pool is destroyed; a new one over the same disk shows the page empty.
  lemma RestartLosesRecord(frames: seq<PageState>, record: seq<byte>)
    requires |frames| == 2 && |record| <= DATA_SIZE - SLOT_SIZE
    ensures EmptyPage().WellFormed() && Start(frames).Inv()
    ensures var page := Insert(EmptyPage(), record).page;
            var ops := [BufferRuns.Alloc(1), BufferRuns.Change(PAGE, page)];
            && BufferRuns.PossibleRun(Start(frames), ops) && BufferRuns.ReportedRun(Start(frames), ops)
            && var s := BufferRuns.Run(Start(frames), ops).0;
               s.View(PAGE) == Some(page) && s.Consistent() &&
               var r := Pool(1, [CLEARED, CLEARED], frames, map[], DestroyFrom(s, 0), map[]);
               r.Inv() && r.View(PAGE) == Some(EmptyPage())
  {
    hide File.WellFormed, File.UsedPages, NewFile, Start, Insert, BufferRuns.Step, PageState.WellFormed, OnePage,
         Pool.Consistent, Pool.Coherent, Pool.OthersRead, Pool.View, Pool.Pins, NoneDirty, BufferRuns.Possible,
         BufferRuns.Run, BufferRuns.PossibleRun, BufferRuns.ReportedRun;
    InsertIntoNew(record);
    var page := Insert(EmptyPage(), record).page;
    AllocFirst(frames);
    var q := BufferRuns.Step(Start(frames), BufferRuns.Alloc(1)).0;
    ChangeFirst(q, page);
    TwoSteps(Start(frames), BufferRuns.Alloc(1), BufferRuns.Change(PAGE, page));
    RestartedClean(BufferRuns.Step(q, BufferRuns.Change(PAGE, page)).0, page, frames);
  }

  lemma AllocFirst(frames: seq<PageState>)
    requires |frames| == 2
    ensures Start(frames).Inv() && BufferRuns.Admissible(Start(frames), BufferRuns.Alloc(1))
    ensures var q := BufferRuns.Step(Start(frames), BufferRuns.Alloc(1)).0; OnePage(q, EmptyPage(), 1) && NoneDirty(q)
  {
    hide File.WellFormed, File.UsedPages, NewFile, BufferPool.AllocPage, Pool.Consistent, Pool.Coherent, OnePage;
    FirstAllocation();
    assert seq(2, _ => CLEARED) == [CLEARED, CLEARED];
    BufferRuns.NewPool(2, 1, frames, map[1 := NewFile()]);
    AllocStep(Start(frames));
    AllocatedClean(Start(frames), 1);
  }

  lemma ChangeFirst(q: Pool, page: PageState)
    requires OnePage(q, EmptyPage(), 1) && NoneDirty(q) && page.pageNumber == 1 && page.nextPage == 0
    ensures q.Consistent() && BufferRuns.Admissible(q, BufferRuns.Change(PAGE, page))
    ensures var s := BufferRuns.Step(q, BufferRuns.Change(PAGE, page)).0; OnePage(s, page, 1) && NoneDirty(s)
  {
    hide Pool.Consistent, Pool.Coherent, Pool.View, Pool.Pins, Pool.OnDisk;
    ChangeStep(q, EmptyPage(), page, 1);
  }

  lemma TwoSteps(s: Pool, a: BufferRuns.PoolOp, b: BufferRuns.PoolOp)
    requires s.Consistent() && BufferRuns.Admissible(s, a)
    requires BufferRuns.Step(s, a).0.Consistent() && BufferRuns.Admissible(BufferRuns.Step(s, a).0, b)
    ensures BufferRuns.PossibleRun(s, [a, b]) && BufferRuns.ReportedRun(s, [a, b])
    ensures BufferRuns.Run(s, [a, b]).0 == BufferRuns.Step(BufferRuns.Step(s, a).0, b).0
  {
    hide Pool.Consistent, BufferRuns.Step, BufferRuns.Possible, Untouched;
    var q := BufferRuns.Step(s, a).0;
    BufferRuns.StepConsistent(q, b);
    BufferRuns.EmptyRun(BufferRuns.Step(q, b).0);
    assert [a, b][1..] == [b] && [b][1..] == [];
    var r := BufferRuns.Step(q, b).0;
    assert BufferRuns.PossibleRun(r, []) && BufferRuns.ReportedRun(r, []);
    assert BufferRuns.PossibleRun(q, [b]) && BufferRuns.ReportedRun(q, [b]);
  }

  lemma RestartedClean(s: Pool, page: PageState, frames: seq<PageState>)
    requires OnePage(s, page, 1) && NoneDirty(s) && |frames| == 2
    ensures s.Consistent() && s.View(PAGE) == Some(page)
    ensures var r := Pool(1, [CLEARED, CLEARED], frames, map[], DestroyFrom(s, 0), map[]);
            r.Inv() && r.View(PAGE) == Some(EmptyPage())
  {
    hide File.WellFormed, File.UsedPages, NewFile;
    NothingWrittenBack(s, 0);
    assert seq(2, _ => CLEARED) == [CLEARED, CLEARED];
    BufferRuns.NewPool(2, 1, frames, s.disk);
  }
}
