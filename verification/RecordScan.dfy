// The FileScan class with its two iterators: a cursor over the records of a file that reads pages through
// the buffer manager (filescan.cpp, page_iterator.h, file_iterator.h).
module RecordScan {
  import opened Types
  import opened SlotBytes
  import opened SlottedPage
  import opened PageList
  import opened PageCorrectness
  import opened Files
  import opened HashTable
  import opened BufferPool
  import opened BufferConsistency
  import opened BufferDisk
  import opened BufferManager
  import opened RecordOrder
  import opened SharedFile
  import opened ScanSteps

  // NoFrame is a BufferExceededException from the buffer manager.
  datatype ScanOutcome = Found(rid: RecordId) | EndOfFile | NoFrame

  method GetNextUsedSlot(page: PageState, start: SlotId) returns (slot: SlotId)
    requires page.Readable()
    ensures IsNextSlot(page, start, slot) && slot <= page.numSlots
  {
    slot := INVALID_SLOT;
    var i := start + 1;
    while i <= page.numSlots
      invariant start < i && slot == INVALID_SLOT
      invariant forall j | start < j < i :: !page.Live(j)
    {
      if SlotAt(page.data, i - 1).Used() {
        slot := i;
        break;
      }
      i := i + 1;
    }
  }

  class FileScan {
    const file: FileId
    const bufMgr: BufMgr
    // The page pinned by the scan, as a frame number; the record iterator belongs to it.
    var curPage: Option<FrameId>
    var filePageIter: PageId
    var pageRecordIter: RecordId
    var curDirtyFlag: bool

    ghost function Held(): Option<Key>
      reads this
    {
      if curPage.Some? then Some(Key(file, filePageIter)) else None
    }

    // The records the scan has not returned yet, in order, as its File object now shows them.
    ghost function Remaining(): seq<RecordId>
      requires bufMgr.State().Known(file) && InOrder(bufMgr.State(), file)
      reads this, bufMgr, bufMgr.bufDescTable, bufMgr.bufPool, bufMgr.hashTable
    {
      Rest(bufMgr.State(), file, filePageIter, if curPage.Some? then Some(pageRecordIter.slotNumber) else None)
    }

    ghost predicate Valid()
      reads this, bufMgr, bufMgr.bufDescTable, bufMgr.bufPool
      reads bufMgr.hashTable, bufMgr.hashTable.ht, bufMgr.hashTable.nodes
    {
      && bufMgr.Valid()
      && Placed(bufMgr.State(), file, filePageIter, curPage)
      && (curPage.Some? ==>
            pageRecordIter.pageNumber == filePageIter && SLOT_SIZE * pageRecordIter.slotNumber <= DATA_SIZE)
    }

    // Opens an object of its own on the file that clients use through object file.
    constructor (file: FileId, own: FileId, bufMgr: BufMgr)
      requires bufMgr.Valid() && bufMgr.State().Known(file) && !bufMgr.State().IsBlob(file)
      requires Unused(bufMgr.State(), own)
      requires Sound(Opened(bufMgr.State(), file, own), own)
      modifies bufMgr`aliases
      ensures this.file == own && this.bufMgr == bufMgr && !curDirtyFlag
      ensures bufMgr.State() == Opened(old(bufMgr.State()), file, own)
      ensures Valid() && Held() == None && Remaining() == AllRecords(bufMgr.State(), own)
      ensures filePageIter == bufMgr.disk[bufMgr.Home(own)].Header().firstUsed
    {
      hide Pool.Consistent, InOrder, AllRecords, Rest, BufHashTbl.Valid, File.UsedPages, Sound;
      this.file := own;
      this.bufMgr := bufMgr;
      curDirtyFlag := false;
      curPage := None;
      filePageIter := bufMgr.disk[bufMgr.Home(file)].Header().firstUsed;
      pageRecordIter := RecordId(INVALID_NUMBER, INVALID_SLOT);
      new;
      OpenedConsistent(bufMgr.State(), file, own);
      OpenedPrivate(bufMgr.State(), file, own);
      SoundInOrder(Opened(bufMgr.State(), file, own), own);
      bufMgr.aliases := bufMgr.aliases[own := bufMgr.Home(file)];
      FirstPage(bufMgr.State(), own);
      RestAtEnds(bufMgr.State(), own, filePageIter);
    }

    // The record the scan stands on; before every record if it is to start at the first page.
    ghost function At(): RecordId
      reads this
    {
      if curPage.Some? then pageRecordIter else RecordId(INVALID_NUMBER, INVALID_SLOT)
    }

    // Returns a record that comes after the one before, and leaves its page pinned. It passes no record that all
    // forms of its page have, and cannot be refused a frame once it holds one. When evictions cannot change what is
    // on disk of the file, the record is the first of the remaining ones, and the others remain.
    method ScanNext() returns (outcome: ScanOutcome)
      requires Valid()
      modifies this, bufMgr, bufMgr.bufDescTable, bufMgr.bufPool
      modifies bufMgr.hashTable, bufMgr.hashTable.ht, bufMgr.hashTable.nodes
      ensures Valid() && fresh(bufMgr.hashTable.nodes - old(bufMgr.hashTable.nodes))
      ensures curDirtyFlag ==> old(curDirtyFlag)
      ensures Harmless(old(bufMgr.State()), old(Held()), bufMgr.State(), Held(), file, old(curDirtyFlag))
      ensures outcome.Found? <==> curPage.Some?
      ensures outcome == NoFrame <==>
              old(curPage.None? && filePageIter != INVALID_NUMBER && AllPinned(bufMgr.State()) &&
                  bufMgr.disk[bufMgr.Home(file)].Header().firstUsed != INVALID_NUMBER)
      ensures old(filePageIter) == INVALID_NUMBER ==> outcome == EndOfFile
      ensures outcome.Found? ==>
                var staysOn := old(curPage).Some? && outcome.rid.pageNumber == old(filePageIter);
                && curDirtyFlag == (old(curDirtyFlag) && staysOn)
                && (staysOn ==> bufMgr.State() == old(bufMgr.State()))
      ensures match outcome
              case Found(rid) =>
                && rid == pageRecordIter && IsRecord(bufMgr.State(), file, rid) && Before(old(At()), rid)
                && NoneBetween(old(bufMgr.State()), file, old(At()), rid)
              case EndOfFile =>
                && filePageIter == INVALID_NUMBER
                && (old(filePageIter) != INVALID_NUMBER ==> NoneAfter(old(bufMgr.State()), file, old(At())))
              case NoFrame => filePageIter != INVALID_NUMBER
      ensures old(Still(bufMgr.State(), file)) ==>
                match outcome
                case Found(rid) => old(Remaining()) == [rid] + Remaining()
                case EndOfFile => old(Remaining()) == []
                case NoFrame => Remaining() == AllRecords(bufMgr.State(), file)
    {
      hide Harmless, Still, BufHashTbl.Valid, Pool.Consistent, BufferPool.ReadPage, AllPinned, PageState.WellFormed,
           File.UsedPages, IsNextSlotIn, InOrder, Sound, Rest, RecordsFrom, IsRecord, Private, Everywhere, NoNewForms,
           BufferPool.UnPinPage;
      ghost var s, held, marked, start := bufMgr.State(), Held(), curDirtyFlag, At();
      NothingHarmed(s, held, file, marked);
      RestAtEnds(s, file, filePageIter);
      if filePageIter == INVALID_NUMBER {
        NothingHarmed(s, None, file, marked);
        return EndOfFile;
      }
      ghost var from := pageRecordIter.slotNumber;
      if curPage.None? {
        filePageIter := bufMgr.disk[bufMgr.Home(file)].Header().firstUsed;
        FirstPage(s, file);
        PassedToFirst(s, file, filePageIter);
        RestAtEnds(s, file, filePageIter);
        if filePageIter == INVALID_NUMBER {
          return EndOfFile;
        }
        var status := EnterPage(marked);
        RestKept(s, held, bufMgr.State(), Held(), file, marked, filePageIter, Some(0));
        RestAtEnds(bufMgr.State(), file, filePageIter);
        if status != PoolOk {
          return NoFrame;
        }
        curDirtyFlag := false;
        FirstOnPage(s, held, bufMgr.State(), Held(), file, marked, start, filePageIter, curPage.value, 0,
                    pageRecordIter.slotNumber);
        if pageRecordIter != EndOfPage() {
          return Found(pageRecordIter);
        }
        from := 0;
      }
      NextRecord();
      outcome := SkipEmptyPages(s, held, old(Remaining()), start, from, marked);
    }

    // The loop of scanNext: the record iterator stands on the first record after slot from, or on none. The scan
    // was at start when the pool was in state s.
    method SkipEmptyPages(ghost s: Pool, ghost held: Option<Key>, ghost remaining: seq<RecordId>,
                          ghost start: RecordId, ghost from: SlotId, ghost marked: bool)
      returns (outcome: ScanOutcome)
      requires Valid() && curPage.Some? && (curDirtyFlag ==> marked)
      requires IsNextSlotIn(bufMgr.bufPool[..], curPage.value, from, pageRecordIter.slotNumber)
      requires Harmless(s, held, bufMgr.State(), Held(), file, marked) && s.Known(file)
      requires PassedTo(s, file, start, RecordId(filePageIter, from))
      requires Still(s, file) ==>
                 Still(bufMgr.State(), file) && Rest(bufMgr.State(), file, filePageIter, Some(from)) == remaining
      modifies this, bufMgr, bufMgr.bufDescTable, bufMgr.bufPool
      modifies bufMgr.hashTable, bufMgr.hashTable.ht, bufMgr.hashTable.nodes
      ensures Valid() && fresh(bufMgr.hashTable.nodes - old(bufMgr.hashTable.nodes))
      ensures curDirtyFlag ==> old(curDirtyFlag)
      ensures Harmless(s, held, bufMgr.State(), Held(), file, marked)
      ensures outcome.Found? <==> curPage.Some?
      ensures match outcome
              case Found(rid) =>
                && rid == pageRecordIter && IsRecord(bufMgr.State(), file, rid)
                && Before(RecordId(old(filePageIter), from), rid) && NoneBetween(s, file, start, rid)
              case EndOfFile => filePageIter == INVALID_NUMBER && NoneAfter(s, file, start)
              case NoFrame => false
      ensures curDirtyFlag <==> outcome.Found? && filePageIter == old(filePageIter) && old(curDirtyFlag)
      ensures outcome.Found? && filePageIter == old(filePageIter) ==> bufMgr.State() == old(bufMgr.State())
      ensures Still(s, file) ==> remaining == if outcome.Found? then [outcome.rid] + Remaining() else []
    {
      hide Harmless, Still, BufHashTbl.Valid, Pool.Consistent, BufferPool.ReadPage, AllPinned, PageState.WellFormed,
           File.UsedPages, IsNextSlotIn, InOrder, Sound, Rest, RecordsFrom, IsRecord, Private, Everywhere, NoNewForms,
           BufferPool.UnPinPage;
      ghost var at, first := from, filePageIter;
      while pageRecordIter == EndOfPage()
        invariant Valid() && curPage.Some? && (curDirtyFlag ==> marked && old(curDirtyFlag))
        invariant fresh(bufMgr.hashTable.nodes - old(bufMgr.hashTable.nodes))
        invariant Harmless(s, held, bufMgr.State(), Held(), file, marked)
        invariant PassedTo(s, file, start, RecordId(filePageIter, at))
        invariant Still(s, file) ==>
          Still(bufMgr.State(), file) && Rest(bufMgr.State(), file, filePageIter, Some(at)) == remaining
        invariant IsNextSlotIn(bufMgr.bufPool[..], curPage.value, at, pageRecordIter.slotNumber)
        invariant first < filePageIter || (first == filePageIter && at == from)
        invariant curDirtyFlag <==> first == filePageIter && old(curDirtyFlag)
        invariant first == filePageIter ==> bufMgr.State() == old(bufMgr.State())
        decreases bufMgr.disk[bufMgr.Home(file)].Header().numPages - filePageIter
      {
        var ended := TurnPage(s, held, remaining, start, at, marked);
        if ended {
          return EndOfFile;
        }
        at := 0;
      }
      FirstOnPage(s, held, bufMgr.State(), Held(), file, marked, start, filePageIter, curPage.value, at,
                  pageRecordIter.slotNumber);
      outcome := Found(pageRecordIter);
    }

    // The body of that loop: to the first record of the next page in use, or to the end of the file. There is a
    // frame for the next page, if only the one that the scan leaves.
    method TurnPage(ghost s: Pool, ghost held: Option<Key>, ghost remaining: seq<RecordId>, ghost start: RecordId,
                    ghost at: SlotId, ghost marked: bool)
      returns (ended: bool)
      requires Valid() && curPage.Some? && (curDirtyFlag ==> marked)
      requires IsNextSlotIn(bufMgr.bufPool[..], curPage.value, at, INVALID_SLOT)
      requires Harmless(s, held, bufMgr.State(), Held(), file, marked) && s.Known(file)
      requires PassedTo(s, file, start, RecordId(filePageIter, at))
      requires Still(s, file) ==>
                 Still(bufMgr.State(), file) && Rest(bufMgr.State(), file, filePageIter, Some(at)) == remaining
      modifies this, bufMgr, bufMgr.bufDescTable, bufMgr.bufPool
      modifies bufMgr.hashTable, bufMgr.hashTable.ht, bufMgr.hashTable.nodes
      ensures Valid() && !curDirtyFlag && fresh(bufMgr.hashTable.nodes - old(bufMgr.hashTable.nodes))
      ensures Harmless(s, held, bufMgr.State(), Held(), file, marked)
      ensures bufMgr.disk[bufMgr.Home(file)].Header() == old(bufMgr.disk[bufMgr.Home(file)].Header())
      ensures old(bufMgr.State()).Consistent()
      ensures var key, dirty := old(Key(file, filePageIter)), old(curDirtyFlag);
              var left := BufferPool.UnPinPage(old(bufMgr.State()), key, dirty).pool;
              if ended then bufMgr.State() == left
              else left.Consistent() && left.Known(file) &&
                   bufMgr.State() == BufferPool.ReadPage(left, Key(file, filePageIter)).pool
      ensures if ended then curPage.None? && filePageIter == INVALID_NUMBER && NoneAfter(s, file, start)
              else
                && curPage.Some? && old(filePageIter) < filePageIter < bufMgr.disk[bufMgr.Home(file)].Header().numPages
                && IsNextSlotIn(bufMgr.bufPool[..], curPage.value, 0, pageRecordIter.slotNumber)
                && PassedTo(s, file, start, RecordId(filePageIter, 0))
      ensures Still(s, file) ==>
                if ended then remaining == []
                else Still(bufMgr.State(), file) && Rest(bufMgr.State(), file, filePageIter, Some(0)) == remaining
    {
      hide Harmless, Still, BufHashTbl.Valid, Pool.Consistent, BufferPool.ReadPage, AllPinned, PageState.WellFormed,
           File.UsedPages, IsNextSlotIn, InOrder, Sound, Rest, RecordsFrom, Private, Everywhere, NoNewForms;
      ghost var q, stood := bufMgr.State(), Held();
      UsedOnDisk(q, file, filePageIter, curPage.value);
      NextPage(q, file, filePageIter);
      LastOnPage(s, held, q, stood, file, marked, start, filePageIter, curPage.value, at,
                 q.DiskPage(Key(file, filePageIter)).nextPage);
      LeavePage(marked);
      HarmlessTransitive(s, held, q, stood, bufMgr.State(), None, file, marked);
      filePageIter := bufMgr.disk[bufMgr.Home(file)].Pages()[filePageIter].nextPage;
      RestKept(q, stood, bufMgr.State(), None, file, marked, filePageIter, Some(0));
      RestAtEnds(bufMgr.State(), file, filePageIter);
      if filePageIter == INVALID_NUMBER {
        return true;
      }
      q := bufMgr.State();
      var _ := EnterPage(marked);
      HarmlessTransitive(s, held, q, None, bufMgr.State(), Held(), file, marked);
      RestKept(q, None, bufMgr.State(), Held(), file, marked, filePageIter, Some(0));
      return false;
    }

    // curPage->end().
    function EndOfPage(): RecordId
      requires curPage.Some? && curPage.value < bufMgr.bufPool.Length
      reads this, bufMgr.bufPool
    {
      RecordId(bufMgr.bufPool[curPage.value].pageNumber, INVALID_SLOT)
    }

    // pageRecordIter++.
    method NextRecord()
      requires Valid() && curPage.Some?
      modifies this`pageRecordIter
      ensures Valid()
      ensures IsNextSlotIn(bufMgr.bufPool[..], curPage.value, old(pageRecordIter).slotNumber, pageRecordIter.slotNumber)
    {
      hide BufHashTbl.Valid, Pool.Consistent, PageState.WellFormed, File.UsedPages, IsNextSlot, InOrder, Sound;
      UsedOnDisk(bufMgr.State(), file, filePageIter, curPage.value);
      var page := bufMgr.bufPool[curPage.value];
      var slot := GetNextUsedSlot(page, pageRecordIter.slotNumber);
      pageRecordIter := RecordId(page.pageNumber, slot);
    }

    // The bytes of the current record, if it is still there.
    method GetRecord() returns (status: Status, record: seq<byte>)
      requires Valid() && curPage.Some? && pageRecordIter.slotNumber != INVALID_SLOT
      ensures IsRecord(bufMgr.State(), file, pageRecordIter) ==>
                status == Ok && record == RecordAt(bufMgr.State(), file, pageRecordIter)
      ensures WithinDirectory(bufMgr.State(), file, pageRecordIter) ==>
                (status == InvalidRecord <==> !IsRecord(bufMgr.State(), file, pageRecordIter))
      ensures FetchedFrom(bufMgr.State(), file, pageRecordIter, status, record)
    {
      hide BufHashTbl.Valid, Pool.Consistent, PageState.WellFormed, File.UsedPages, InOrder, Sound;
      RecordInFrame(bufMgr.State(), file, pageRecordIter, curPage.value);
      var fetched := Fetch(bufMgr.bufPool[curPage.value], pageRecordIter);
      status, record := fetched.0, fetched.1;
    }

    method MarkDirty()
      modifies this`curDirtyFlag
      ensures curDirtyFlag
    {
      curDirtyFlag := true;
    }

    // The destructor.
    method Close()
      requires Valid()
      modifies this, bufMgr.bufDescTable
      ensures bufMgr.Valid() && Held() == None && !(old(curPage).Some? && curDirtyFlag)
      ensures bufMgr.State() ==
              if old(curPage).None? then old(bufMgr.State())
              else BufferPool.UnPinPage(old(bufMgr.State()), old(Key(file, filePageIter)), old(curDirtyFlag)).pool
      ensures Harmless(old(bufMgr.State()), old(Held()), bufMgr.State(), None, file, old(curDirtyFlag))
    {
      hide Harmless, BufHashTbl.Valid, Pool.Consistent, InOrder, Sound;
      NothingHarmed(bufMgr.State(), None, file, curDirtyFlag);
      if curPage.Some? {
        LeavePage(curDirtyFlag);
        filePageIter := bufMgr.disk[bufMgr.Home(file)].Header().firstUsed;
      }
    }

    // Unpins the current page, whose number is read from the disk.
    method LeavePage(ghost marked: bool)
      requires Valid() && curPage.Some? && (curDirtyFlag ==> marked)
      modifies this`curPage, this`curDirtyFlag, bufMgr.bufDescTable
      ensures Valid() && curPage == None && !curDirtyFlag && bufMgr.State().disk == old(bufMgr.State().disk)
      ensures bufMgr.State() ==
              BufferPool.UnPinPage(old(bufMgr.State()), Key(file, filePageIter), old(curDirtyFlag)).pool
      ensures !AllPinned(bufMgr.State())
      ensures Harmless(old(bufMgr.State()), old(Held()), bufMgr.State(), None, file, marked)
    {
      hide Harmless, BufHashTbl.Valid, Pool.Consistent, BufferPool.UnPinPage, InOrder, Sound;
      ghost var s := bufMgr.State();
      UsedOnDisk(s, file, filePageIter, curPage.value);
      LeaveEffect(s, Key(file, filePageIter), curDirtyFlag);
      HeldOnce(s, file, filePageIter, curPage.value);
      LeftFrameFree(s, Key(file, filePageIter), curDirtyFlag);
      var onDisk := ReadFilePage(bufMgr.disk[bufMgr.Home(file)], filePageIter).value;
      var _ := bufMgr.UnPinPage(file, onDisk.pageNumber, curDirtyFlag);
      PlacedStill(s, bufMgr.State(), file, filePageIter, curPage.value, curDirtyFlag, marked);
      curPage := None;
      curDirtyFlag := false;
    }

    // Pins the page that the file iterator is on and puts the record iterator on its first record.
    method EnterPage(ghost marked: bool) returns (status: PoolStatus)
      requires Valid() && filePageIter in bufMgr.disk[bufMgr.Home(file)].UsedPages() && curPage == None
      modifies this`curPage, this`pageRecordIter, bufMgr, bufMgr.bufDescTable, bufMgr.bufPool
      modifies bufMgr.hashTable, bufMgr.hashTable.ht, bufMgr.hashTable.nodes
      ensures Valid() && fresh(bufMgr.hashTable.nodes - old(bufMgr.hashTable.nodes))
      ensures Harmless(old(bufMgr.State()), None, bufMgr.State(), Held(), file, marked)
      ensures status == PoolOk <==> curPage.Some?
      ensures bufMgr.State() == BufferPool.ReadPage(old(bufMgr.State()), Key(file, filePageIter)).pool
      ensures status == PoolOk || status == BufferExceeded
      ensures status == BufferExceeded <==> old(AllPinned(bufMgr.State()))
      ensures status == PoolOk ==> IsNextSlotIn(bufMgr.bufPool[..], curPage.value, 0, pageRecordIter.slotNumber)
    {
      hide Harmless, BufHashTbl.Valid, Pool.Consistent, BufferPool.ReadPage, AllPinned,
           PageState.WellFormed, File.UsedPages, IsNextSlot, InOrder, Sound;
      ghost var s := bufMgr.State();
      UsedIsOnDisk(s, Key(file, filePageIter));
      EnterEffect(s, Key(file, filePageIter));
      UsedPageOnDisk(s, Key(file, filePageIter));
      var onDisk := ReadFilePage(bufMgr.disk[bufMgr.Home(file)], filePageIter).value;
      var frame;
      status, frame := bufMgr.ReadPage(file, onDisk.pageNumber);
      if status == PoolOk {
        UsedOnDisk(bufMgr.State(), file, filePageIter, frame);
        curPage := Some(frame);
        var page := bufMgr.bufPool[frame];
        var slot := GetNextUsedSlot(page, INVALID_SLOT);
        pageRecordIter := RecordId(page.pageNumber, slot);
      }
      MoreMarked(s, bufMgr.State(), Held(), file, marked);
    }
  }

  lemma MoreMarked(s: Pool, r: Pool, holds: Option<Key>, g: FileId, marked: bool)
    requires Harmless(s, None, r, holds, g, false)
    ensures Harmless(s, None, r, holds, g, marked)
  {
  }

  lemma UsedIsOnDisk(s: Pool, key: Key)
    requires s.Consistent() && s.Known(key.file) && key.page in s.disk[s.Home(key.file)].UsedPages()
    ensures s.OnDisk(key)
  {
    UsedPagesExist(s.disk[s.Home(key.file)]);
  }

  lemma HeldOnce(s: Pool, f: FileId, p: PageId, i: FrameId)
    requires Placed(s, f, p, Some(i))
    ensures s.Pins(Key(f, p)) == 1
  {
  }

  // The record iterator stands on a record after everything passed so far.
  lemma FirstOnPage(s: Pool, held: Option<Key>, q: Pool, holds: Option<Key>, f: FileId, marked: bool, start: RecordId,
                    p: PageId, frame: FrameId, i: SlotId, slot: SlotId)
    requires s.Known(f) && Harmless(s, held, q, holds, f, marked) && PassedTo(s, f, start, RecordId(p, i))
    requires q.Consistent() && Placed(q, f, p, Some(frame)) && IsNextSlotIn(q.frames, frame, i, slot)
    ensures q.frames[frame].pageNumber == p
    ensures slot != 0 ==>
              && IsRecord(q, f, RecordId(p, slot)) && i < slot && NoneBetween(s, f, start, RecordId(p, slot))
              && Rest(q, f, p, Some(i)) == [RecordId(p, slot)] + Rest(q, f, p, Some(slot))
  {
    hide Harmless, Pool.Consistent, Placed, IsNextSlotIn, Everywhere, NoneBetween, PassedTo, InOrder, Rest, IsRecord;
    HarmlessForms(s, held, q, holds, f, marked);
    RestOnPage(q, f, p, frame, i, slot);
    PassedOnPage(q, f, p, frame, i, slot);
    PassOn(s, q, f, start, RecordId(p, i), RecordId(p, slot));
  }

  // No record of the page is left, and n is the next page.
  lemma LastOnPage(s: Pool, held: Option<Key>, q: Pool, holds: Option<Key>, f: FileId, marked: bool, start: RecordId,
                   p: PageId, frame: FrameId, i: SlotId, n: PageId)
    requires s.Known(f) && Harmless(s, held, q, holds, f, marked) && PassedTo(s, f, start, RecordId(p, i))
    requires q.Consistent() && Placed(q, f, p, Some(frame)) && IsNextSlotIn(q.frames, frame, i, INVALID_SLOT)
    requires IsNext(q.disk[q.Home(f)].UsedPages(), p, n)
    ensures Rest(q, f, p, Some(i)) == RecordsFrom(q, f, p + 1)
    ensures if n == 0 then NoneAfter(s, f, start) else PassedTo(s, f, start, RecordId(n, 0))
  {
    hide Harmless, Pool.Consistent, IsNextSlotIn, Everywhere, NoneAfter, PassedTo, InOrder, Rest, Sound,
         File.UsedPages;
    HarmlessForms(s, held, q, holds, f, marked);
    RestOnPage(q, f, p, frame, i, INVALID_SLOT);
    PassedToPage(q, f, p, frame, i, n);
    PassOn(s, q, f, start, RecordId(p, i), RecordId(n, 0));
  }

  // After leaving a page the scan can go on anywhere.
  lemma PlacedStill(s: Pool, r: Pool, g: FileId, p: PageId, i: FrameId, dirty: bool, marked: bool)
    requires Placed(s, g, p, Some(i)) && r.Consistent()
    requires Harmless(s, Some(Key(g, p)), r, None, g, dirty) && (dirty ==> marked)
    ensures Placed(r, g, p, None) && Harmless(s, Some(Key(g, p)), r, None, g, marked)
  {
    hide Pool.Consistent, Sound, InOrder, IsVersion, Pool.Pins, Pool.View, Still;
    PrivateKept(s, Some(Key(g, p)), r, None, g, dirty);
    SoundKept(s, r, g);
    SoundInOrder(r, g);
  }

  // Whether the directory of the page still has the slot; it may have been cut short.
  ghost predicate WithinDirectory(s: Pool, f: FileId, rid: RecordId) {
    s.View(Key(f, rid.pageNumber)).Some? && rid.slotNumber <= s.View(Key(f, rid.pageNumber)).value.numSlots
  }

  ghost predicate FetchedFrom(s: Pool, f: FileId, rid: RecordId, status: Status, record: seq<byte>) {
    var view := s.View(Key(f, rid.pageNumber));
    && view.Some? && view.value.Readable() && 1 <= rid.slotNumber && SLOT_SIZE * rid.slotNumber <= DATA_SIZE
    && (status, record) == Fetch(view.value, rid)
  }

  lemma RecordInFrame(s: Pool, f: FileId, rid: RecordId, i: FrameId)
    requires s.Consistent() && Placed(s, f, rid.pageNumber, Some(i))
    requires 1 <= rid.slotNumber && SLOT_SIZE * rid.slotNumber <= DATA_SIZE
    ensures i < |s.frames| && s.frames[i].Readable()
    ensures var (status, record) := Fetch(s.frames[i], rid);
            && FetchedFrom(s, f, rid, status, record)
            && (IsRecord(s, f, rid) ==> status == Ok && record == RecordAt(s, f, rid))
            && (!IsRecord(s, f, rid) && WithinDirectory(s, f, rid) ==> status == InvalidRecord)
  {
    hide Pool.View, Pool.Consistent, PageState.WellFormed, PageState.Slots, PageState.Record, Sound;
    UsedOnDisk(s, f, rid.pageNumber, i);
    if rid.slotNumber <= s.frames[i].numSlots {
      FetchCorrect(s.FrameFace(i), rid);
    }
  }
}
