// The loop that builds an index from a file (BTreeIndex::createInitialTree in btree.cpp), reduced to its scan.
module IndexScan {
  import opened Types
  import opened SlotBytes
  import opened SlottedPage
  import opened Files
  import opened HashTable
  import opened BufferPool
  import opened BufferConsistency
  import opened BufferDisk
  import opened BufferManager
  import opened RecordOrder
  import opened SharedFile
  import opened ScanSteps
  import opened RecordScan
  import PageRuns

  // ----- what a scan returns -----

  // The records as clients of object f see them, with their bytes.
  ghost predicate Listed(s: Pool, f: FileId, rids: seq<RecordId>, records: seq<seq<byte>>) {
    && InOrder(s, f) && |rids| == |records|
    && forall i | 0 <= i < |rids| :: IsRecord(s, f, rids[i]) && records[i] == RecordAt(s, f, rids[i])
  }

  // The record is in some form of its page, on disk or in a frame.
  ghost predicate InVersion(s: Pool, f: FileId, rid: RecordId, record: seq<byte>) {
    exists page | IsVersion(s, Key(f, rid.pageNumber), page) :: HasRecord(page, rid.slotNumber, record)
  }

  ghost predicate HasRecord(page: PageState, slot: SlotId, record: seq<byte>) {
    page.WellFormed() && page.Live(slot) && page.Record(slot) == record
  }

  // Each record is listed once, by page and then by slot, from some form in which its page existed.
  ghost predicate Collected(s: Pool, f: FileId, rids: seq<RecordId>, records: seq<seq<byte>>) {
    && Sorted(rids) && |rids| == |records|
    && forall i | 0 <= i < |rids| :: InVersion(s, f, rids[i], records[i])
  }

  lemma NothingListed(s: Pool, f: FileId)
    ensures Collected(s, f, [], []) && (InOrder(s, f) ==> Listed(s, f, [], []))
  {
  }

  lemma OneMoreListed(s: Pool, f: FileId, rids: seq<RecordId>, records: seq<seq<byte>>, rid: RecordId,
                      record: seq<byte>)
    requires Listed(s, f, rids, records) && IsRecord(s, f, rid) && record == RecordAt(s, f, rid)
    ensures Listed(s, f, rids + [rid], records + [record])
  {
    hide IsRecord, RecordAt, InOrder;
  }

  lemma OneMoreCollected(s: Pool, f: FileId, rids: seq<RecordId>, records: seq<seq<byte>>, rid: RecordId,
                         record: seq<byte>)
    requires Collected(s, f, rids, records) && InVersion(s, f, rid, record)
    requires rids != [] ==> Before(rids[|rids| - 1], rid)
    ensures Collected(s, f, rids + [rid], records + [record])
  {
    hide InVersion;
    forall i | 0 <= i < |rids|
      ensures Before(rids[i], rid)
    {
      assert i < |rids| - 1 ==> Before(rids[i], rids[|rids| - 1]);
    }
  }

  // ----- the loop -----

  // Every record up to the given one that all forms of its page have is in the list.
  ghost predicate NoneMissed(s: Pool, f: FileId, rids: seq<RecordId>, last: RecordId) {
    forall rid | Everywhere(s, f, rid) && !Before(last, rid) :: rid in rids
  }

  // Every record that all forms of its page have is in the list.
  ghost predicate Covered(s: Pool, f: FileId, rids: seq<RecordId>) {
    forall rid | Everywhere(s, f, rid) :: rid in rids
  }

  // The scan has come to a record, or to the end, since the pool was in state s and then in state q.
  lemma OneMoreCovered(s: Pool, q: Pool, f: FileId, rids: seq<RecordId>, last: RecordId, rid: RecordId)
    requires NoNewForms(s, q, f) && NoneMissed(s, f, rids, last)
    ensures NoneBetween(q, f, last, rid) ==> NoneMissed(s, f, rids + [rid], rid)
    ensures NoneAfter(q, f, last) ==> Covered(s, f, rids)
  {
    hide Everywhere, NoNewForms;
    EverywhereKept(s, q, f);
    forall r | Everywhere(s, f, r) && NoneBetween(q, f, last, rid) && !Before(rid, r)
      ensures r in rids + [rid]
    {
      assert Before(r, rid) || r == rid;
    }
  }

  lemma NoneMissedYet(s: Pool, f: FileId)
    requires s.Consistent()
    ensures NoneMissed(s, f, [], RecordId(0, 0))
  {
    hide Everywhere;
    SlotsFromOne(s, f);
  }

  // Whether the scan has yet to read its first page, or stands on the last of the records found.
  ghost predicate StandsOn(scan: FileScan, rids: seq<RecordId>)
    reads scan, scan.bufMgr
  {
    if rids == [] then
      && scan.curPage.None? && scan.bufMgr.Home(scan.file) in scan.bufMgr.disk
      && scan.filePageIter == scan.bufMgr.disk[scan.bufMgr.Home(scan.file)].Header().firstUsed
    else scan.curPage.Some? && scan.pageRecordIter == rids[|rids| - 1]
  }

  // The body of the loop: the next record with its bytes. The pool was in state s when the loop began.
  method ReadNext(scan: FileScan, ghost s: Pool, ghost rids: seq<RecordId>, ghost records: seq<seq<byte>>)
    returns (outcome: ScanOutcome, record: seq<byte>)
    requires scan.Valid() && StandsOn(scan, rids)
    requires s.Consistent() && s.Known(scan.file) && InOrder(s, scan.file)
    requires Lasting(s, scan.bufMgr.State(), scan.file)
    requires Collected(s, scan.file, rids, records) && NoneMissed(s, scan.file, rids, scan.At())
    requires Still(s, scan.file) ==>
               Listed(s, scan.file, rids, records) && AllRecords(s, scan.file) == rids + scan.Remaining()
    modifies scan, scan.bufMgr, scan.bufMgr.bufDescTable, scan.bufMgr.bufPool
    modifies scan.bufMgr.hashTable, scan.bufMgr.hashTable.ht, scan.bufMgr.hashTable.nodes
    ensures scan.Valid() && (scan.curDirtyFlag ==> old(scan.curDirtyFlag))
    ensures fresh(scan.bufMgr.hashTable.nodes - old(scan.bufMgr.hashTable.nodes))
    ensures Harmless(old(scan.bufMgr.State()), old(scan.Held()), scan.bufMgr.State(), scan.Held(), scan.file,
                     old(scan.curDirtyFlag))
    ensures Lasting(s, scan.bufMgr.State(), scan.file)
    ensures outcome == NoFrame <==> rids == [] && old(Starved(scan.bufMgr.State(), scan.file))
    ensures match outcome
            case Found(rid) =>
              && StandsOn(scan, rids + [rid]) && (rids != [] ==> Before(rids[|rids| - 1], rid))
              && 1 <= rid.pageNumber < s.disk[s.Home(scan.file)].Header().numPages && rid.slotNumber <= DATA_SIZE
              && Collected(s, scan.file, rids + [rid], records + [record])
              && NoneMissed(s, scan.file, rids + [rid], scan.At())
            case EndOfFile => Covered(s, scan.file, rids)
            case NoFrame => true
    ensures Still(s, scan.file) ==>
              match outcome
              case Found(rid) =>
                && Listed(s, scan.file, rids + [rid], records + [record])
                && AllRecords(s, scan.file) == rids + [rid] + scan.Remaining()
              case EndOfFile => AllRecords(s, scan.file) == rids
              case NoFrame => true
  {
    hide Harmless, Still, BufHashTbl.Valid, Pool.Consistent, InOrder, Sound, AllPinned, AllRecords, Rest, Listed,
         Collected, IsRecord, RecordAt, InVersion, Private, NoneMissed, Covered, Everywhere, NoNewForms, NoneBetween,
         NoneAfter, FetchedFrom, WithinDirectory, SameFile, Placed;
    ghost var q, held, last, marked := scan.bufMgr.State(), scan.Held(), scan.At(), scan.curDirtyFlag;
    PlacedKnown(q, scan.file, scan.filePageIter, scan.curPage);
    outcome := scan.ScanNext();
    record := [];
    ghost var r, holds := scan.bufMgr.State(), scan.Held();
    PlacedKnown(r, scan.file, scan.filePageIter, scan.curPage);
    HarmlessLasting(q, held, r, holds, scan.file, marked);
    LastingTransitive(s, q, r, scan.file);
    NoneBeyondEmpty(q, scan.file);
    OneMoreCovered(s, q, scan.file, rids, last, if outcome.Found? then outcome.rid else last);
    match outcome
    case Found(rid) =>
      RecordFound(s, r, scan.file, rid);
      var status;
      status, record := scan.GetRecord();
      OneMoreCollected(s, scan.file, rids, records, rid, record);
      if Still(s, scan.file) {
        SameRecordThere(s, r, scan.file, rid);
        OneMoreListed(s, scan.file, rids, records, rid, record);
      }
    case EndOfFile =>
    case NoFrame =>
  }

  // There is a page to be read, and no frame for it.
  ghost predicate Starved(s: Pool, f: FileId) {
    s.Known(f) && s.disk[s.Home(f)].Header().firstUsed != INVALID_NUMBER && AllPinned(s)
  }

  // In a file with no page in use.
  lemma NoneBeyondEmpty(s: Pool, f: FileId)
    requires s.Consistent() && s.Known(f) && !s.IsBlob(f) && InOrder(s, f)
    ensures s.disk[s.Home(f)].Header().firstUsed == INVALID_NUMBER ==> NoneAfter(s, f, RecordId(0, 0))
  {
    hide Pool.Consistent, InOrder, File.UsedPages, Everywhere, AllRecords, Rest;
    FirstPage(s, f);
    PassedToFirst(s, f, s.disk[s.Home(f)].Header().firstUsed);
  }

  lemma RecordFound(s: Pool, r: Pool, f: FileId, rid: RecordId)
    requires s.Consistent() && r.Consistent() && s.Known(f) && InOrder(r, f) && IsRecord(r, f, rid)
    requires NoNewForms(s, r, f)
    ensures 1 <= rid.pageNumber < s.disk[s.Home(f)].Header().numPages && rid.slotNumber != INVALID_SLOT
    ensures InVersion(s, f, rid, RecordAt(r, f, rid))
  {
    hide Pool.View, Pool.Consistent, PageState.WellFormed, PageState.Slots, IsVersion, SameLinks;
    ViewIsVersion(r, Key(f, rid.pageNumber));
    PagesInRange(r, f);
    SameLinksUsed(s.disk[s.Home(f)], r.disk[r.Home(f)]);
    assert HasRecord(r.View(Key(f, rid.pageNumber)).value, rid.slotNumber, RecordAt(r, f, rid));
  }

  lemma SameRecordThere(s: Pool, r: Pool, f: FileId, rid: RecordId)
    requires Lasting(s, r, f) && Still(s, f) && InOrder(s, f) && InOrder(r, f)
    requires IsRecord(r, f, rid)
    ensures IsRecord(s, f, rid) && RecordAt(s, f, rid) == RecordAt(r, f, rid)
  {
    hide Pool.View, PageState.WellFormed, PageState.Slots, NoNewForms;
  }

  // The loop, for a scan that has just been opened: every record until the end of the file, which it reaches
  // unless there is no frame for the first page.
  method ReadOn(scan: FileScan) returns (complete: bool, rids: seq<RecordId>, records: seq<seq<byte>>)
    requires scan.Valid() && StandsOn(scan, [])
    modifies scan, scan.bufMgr, scan.bufMgr.bufDescTable, scan.bufMgr.bufPool
    modifies scan.bufMgr.hashTable, scan.bufMgr.hashTable.ht, scan.bufMgr.hashTable.nodes
    ensures scan.Valid() && (scan.curDirtyFlag ==> old(scan.curDirtyFlag))
    ensures fresh(scan.bufMgr.hashTable.nodes - old(scan.bufMgr.hashTable.nodes))
    ensures Harmless(old(scan.bufMgr.State()), None, scan.bufMgr.State(), scan.Held(), scan.file,
                     old(scan.curDirtyFlag))
    ensures complete <==> !old(Starved(scan.bufMgr.State(), scan.file))
    ensures Collected(old(scan.bufMgr.State()), scan.file, rids, records)
    ensures complete ==> Covered(old(scan.bufMgr.State()), scan.file, rids)
    ensures old(Still(scan.bufMgr.State(), scan.file)) ==>
              && Listed(old(scan.bufMgr.State()), scan.file, rids, records)
              && (complete ==> rids == AllRecords(old(scan.bufMgr.State()), scan.file))
    ensures !complete ==> rids == []
  {
    hide Harmless, Still, BufHashTbl.Valid, Pool.Consistent, InOrder, Sound, AllPinned, AllRecords, Rest, Listed,
         Collected, NoneMissed, Covered, Private, Starved, Lasting;
    ghost var s, marked := scan.bufMgr.State(), scan.curDirtyFlag;
    ghost var last, size := RecordId(0, 0), s.disk[s.Home(scan.file)].Header().numPages;
    StartReading(s, scan.file, scan.filePageIter, marked);
    rids, records, complete := [], [], false;
    while true
      invariant scan.Valid() && (scan.curDirtyFlag ==> marked)
      invariant fresh(scan.bufMgr.hashTable.nodes - old(scan.bufMgr.hashTable.nodes))
      invariant Harmless(s, None, scan.bufMgr.State(), scan.Held(), scan.file, marked)
      invariant Lasting(s, scan.bufMgr.State(), scan.file)
      invariant Collected(s, scan.file, rids, records) && NoneMissed(s, scan.file, rids, scan.At())
      invariant StandsOn(scan, rids) && scan.At() == last
      invariant rids == [] ==> scan.bufMgr.State() == s
      invariant rids != [] ==> !Starved(s, scan.file)
      invariant (last == RecordId(0, 0) || last.pageNumber < size) && last.slotNumber <= DATA_SIZE
      invariant Still(s, scan.file) ==>
        Listed(s, scan.file, rids, records) && AllRecords(s, scan.file) == rids + scan.Remaining()
      decreases size + 1 - last.pageNumber, DATA_SIZE - last.slotNumber
    {
      ghost var q, held, dirty := scan.bufMgr.State(), scan.Held(), scan.curDirtyFlag;
      var outcome, record := ReadNext(scan, s, rids, records);
      LessMarked(q, held, scan.bufMgr.State(), scan.Held(), scan.file, dirty, marked);
      HarmlessTransitive(s, None, q, held, scan.bufMgr.State(), scan.Held(), scan.file, marked);
      match outcome
      case Found(rid) =>
        rids := rids + [rid];
        records := records + [record];
        last := rid;
      case EndOfFile =>
        complete := true;
        break;
      case NoFrame =>
        break;
    }
  }

  lemma LessMarked(s: Pool, held: Option<Key>, r: Pool, holds: Option<Key>, g: FileId, less: bool, more: bool)
    requires Harmless(s, held, r, holds, g, less) && (less ==> more)
    ensures Harmless(s, held, r, holds, g, more)
  {
  }

  // Nothing is read yet.
  lemma StartReading(s: Pool, f: FileId, p: PageId, marked: bool)
    requires s.Consistent() && s.Known(f) && !s.IsBlob(f) && InOrder(s, f)
    requires p == s.disk[s.Home(f)].Header().firstUsed
    ensures Harmless(s, None, s, None, f, marked) && Lasting(s, s, f)
    ensures Collected(s, f, [], []) && Listed(s, f, [], []) && NoneMissed(s, f, [], RecordId(0, 0))
    ensures Rest(s, f, p, None) == AllRecords(s, f)
  {
    hide Harmless, Lasting, Collected, Listed, Pool.Consistent, InOrder, NoneMissed, AllRecords, Rest;
    NothingHarmed(s, None, f, marked);
    HarmlessLasting(s, None, s, None, f, marked);
    NothingListed(s, f);
    NoneMissedYet(s, f);
    FirstPage(s, f);
    RestAtEnds(s, f, p);
  }

  // Opening the scan, reading to the end, and closing it. It reaches the end of the file unless there is a page to
  // be read and others have pinned every frame. It returns what is on disk of the file if clients still have pinned
  // what they have not written; that is what clients see if and only if the records they see are all written.
  method ReadAllRecords(file: FileId, own: FileId, bufMgr: BufMgr)
    returns (complete: bool, rids: seq<RecordId>, records: seq<seq<byte>>)
    requires bufMgr.Valid() && file in bufMgr.disk && bufMgr.disk[file].Paged? && Unused(bufMgr.State(), own)
    requires Sound(Opened(bufMgr.State(), file, own), own)
    modifies bufMgr, bufMgr.bufDescTable, bufMgr.bufPool, bufMgr.hashTable, bufMgr.hashTable.ht, bufMgr.hashTable.nodes
    ensures bufMgr.Valid()
    ensures Harmless(Opened(old(bufMgr.State()), file, own), None, bufMgr.State(), None, own, false)
    ensures complete <==> !old(Starved(bufMgr.State(), file))
    ensures Collected(old(bufMgr.State()), file, rids, records)
    ensures if complete then Covered(old(bufMgr.State()), file, rids) else rids == []
    ensures old(bufMgr.State()).OthersRead() && UnwrittenPinned(old(bufMgr.State()), file) ==>
              ScansDisk(old(bufMgr.State()), file, own, complete, rids, records)
  {
    hide Harmless, Still, BufHashTbl.Valid, Pool.Consistent, Pool.OthersRead, InOrder, Sound, AllPinned, AllRecords,
         Rest, Listed, Collected, Opened, Unused, UnwrittenPinned, ScansDisk, Private, Covered, Starved, NoneMissed;
    ghost var before := bufMgr.State();
    FirstObjectKnown(before, file);
    OpenedConsistent(before, file, own);
    var scan := new FileScan(file, own, bufMgr);
    ghost var s := bufMgr.State();
    complete, rids, records := ReadOn(scan);
    ghost var q, held := bufMgr.State(), scan.Held();
    scan.Close();
    HarmlessTransitive(s, None, q, held, bufMgr.State(), None, own, false);
    OpenedForms(before, file, own, rids, records);
    if before.OthersRead() && UnwrittenPinned(before, file) {
      StillWhenPinned(before, file, own);
      ScanOfDisk(before, file, own, complete, rids, records);
    }
  }

  // The pages of the file exist in the same forms for the new object.
  lemma OpenedForms(s: Pool, f: FileId, g: FileId, rids: seq<RecordId>, records: seq<seq<byte>>)
    requires s.Consistent() && s.Known(f) && Unused(s, g)
    ensures Collected(Opened(s, f, g), g, rids, records) ==> Collected(s, f, rids, records)
    ensures Covered(Opened(s, f, g), g, rids) ==> Covered(s, f, rids)
    ensures Starved(Opened(s, f, g), g) == Starved(s, f)
  {
    hide IsVersion, HasRecord, PageState.WellFormed, AllPinned, Pool.Consistent;
    SameForms(s, f, g);
    SamePins(s, f, g);
    assert forall p: PageId :: Opened(s, f, g).OnDisk(Key(g, p)) == s.OnDisk(Key(f, p));
  }

  lemma SameForms(s: Pool, f: FileId, g: FileId)
    requires s.Consistent() && s.Known(f) && Unused(s, g)
    ensures forall p: PageId, page :: IsVersion(Opened(s, f, g), Key(g, p), page) <==> IsVersion(s, Key(f, p), page)
  {
    hide File.WellFormed, File.UsedPages, Shown;
    var t := Opened(s, f, g);
    forall p: PageId, page, i | 0 <= i < |s.descs|
      ensures Holds(t, i, Key(g, p), page) <==> Holds(s, i, Key(f, p), page)
    {
      assert s.FrameConsistent(i);
    }
  }

  // The scan returns the records on disk; they are the clients' records if and only if every cached page holds the
  // records that are on disk.
  ghost predicate ScansDisk(s: Pool, f: FileId, g: FileId, complete: bool, rids: seq<RecordId>,
                            records: seq<seq<byte>>) {
    && Opened(s, f, g).Known(g) && InOrder(Opened(s, f, g), g)
    && Listed(Opened(s, f, g), g, rids, records) && (complete ==> rids == AllRecords(Opened(s, f, g), g))
    && (complete && s.Known(f) && InOrder(s, f) && DiskInOrder(s, f) ==>
          (rids == AllRecords(s, f) && Listed(s, f, rids, records) <==> RecordsWritten(s, f)))
  }

  lemma FirstObjectKnown(s: Pool, f: FileId)
    requires s.Consistent() && f in s.disk
    ensures s.Known(f) && s.Home(f) == f
  {
  }

  lemma SamePins(s: Pool, f: FileId, g: FileId)
    ensures AllPinned(Opened(s, f, g)) == AllPinned(s)
  {
  }

  lemma ScanOfDisk(s: Pool, f: FileId, g: FileId, complete: bool, rids: seq<RecordId>, records: seq<seq<byte>>)
    requires s.Consistent() && s.Known(f) && Unused(s, g)
    requires Opened(s, f, g).Known(g) && InOrder(Opened(s, f, g), g)
    requires Listed(Opened(s, f, g), g, rids, records)
    requires complete ==> rids == AllRecords(Opened(s, f, g), g)
    ensures ScansDisk(s, f, g, complete, rids, records)
  {
    hide Pool.Consistent, Opened, Unused, IsRecord, RecordAt, AllRecords, InOrder, PageState.WellFormed,
         RecordsWritten, DiskInOrder;
    if complete && InOrder(s, f) && DiskInOrder(s, f) {
      SecondScanIff(s, f, g);
      OpenedConsistent(s, f, g);
      AllRecordsExact(s, f);
      AllRecordsExact(Opened(s, f, g), g);
      ListedIffSame(s, f, Opened(s, f, g), g, rids, records);
    }
  }

  lemma ListedIffSame(s: Pool, f: FileId, t: Pool, g: FileId, rids: seq<RecordId>, records: seq<seq<byte>>)
    requires s.Known(f) && InOrder(s, f) && t.Known(g) && InOrder(t, g)
    requires forall rid :: rid in AllRecords(s, f) <==> IsRecord(s, f, rid)
    requires forall rid :: rid in AllRecords(t, g) <==> IsRecord(t, g, rid)
    requires rids == AllRecords(t, g) && Listed(t, g, rids, records)
    ensures rids == AllRecords(s, f) && Listed(s, f, rids, records) <==> SameListing(s, f, t, g)
  {
    hide IsRecord, RecordAt, AllRecords, InOrder;
    if rids == AllRecords(s, f) && Listed(s, f, rids, records) {
      forall rid | IsRecord(s, f, rid) && IsRecord(t, g, rid)
        ensures RecordAt(t, g, rid) == RecordAt(s, f, rid)
      {
        var i :| 0 <= i < |rids| && rids[i] == rid;
      }
    }
  }

  // So when everything has been written the scan returns the clients' records.
  lemma ScanOfWritten(s: Pool, f: FileId, g: FileId, complete: bool, rids: seq<RecordId>, records: seq<seq<byte>>)
    requires s.Consistent() && f in s.disk && Unused(s, g) && InOrder(s, f) && Written(s, f)
    requires ScansDisk(s, f, g, complete, rids, records)
    ensures UnwrittenPinned(s, f) && s.Known(f)
    ensures complete ==> rids == AllRecords(s, f) && Listed(s, f, rids, records)
  {
    hide Pool.Consistent, Opened, Unused, IsRecord, RecordAt, AllRecords, InOrder, PageState.WellFormed, Written,
         UnwrittenPinned;
    FirstObjectKnown(s, f);
    WrittenIsPinned(s, f);
    SecondScanWritten(s, f, g);
    OpenedConsistent(s, f, g);
    AllRecordsExact(s, f);
    AllRecordsExact(Opened(s, f, g), g);
    if complete {
      ListedIffSame(s, f, Opened(s, f, g), g, rids, records);
    }
  }

  // ----- the end of the file is final -----

  // A scan that stands on no page is not disturbed when a client adds a page to its file.
  lemma AllocPagePlaced(s: Pool, h: FileId, f: FileId, p: PageId)
    requires s.Consistent() && h in s.disk && MayAllocate(s.disk[h]) && Placed(s, f, p, None)
    ensures var r := BufferPool.AllocPage(s, h);
            && r.pool.Consistent() && Placed(r.pool, f, p, None) && r.pool.Known(h)
            && (r.status == PoolOk ==> r.pool.Pins(Key(h, r.page)) > 0 && Key(h, r.page) in r.pool.table)
            && (r.status == PoolOk || r.status == BufferExceeded)
  {
    hide Pool.Consistent, Sound, InOrder, BufferPool.AllocPage, Pool.Pins, SameLists, PinnedUntouched, AllPinned;
    FirstObjectKnown(s, h);
    AllocPageKeeps(s, h);
    AllocPageSound(s, h, f);
    var r := BufferPool.AllocPage(s, h);
    SoundInOrder(r.pool, f);
    PinnedThere(r.pool, Key(h, r.page));
    NotFirst(s, h, f);
  }

  lemma NotFirst(s: Pool, h: FileId, f: FileId)
    requires s.Consistent() && h in s.disk && f in s.aliases
    ensures h != f
  {
  }

  lemma WriteFramePlaced(s: Pool, key: Key, page: PageState, f: FileId, p: PageId)
    requires s.Consistent() && Placed(s, f, p, None) && s.Pins(key) > 0 && s.Belongs(key, page) && page.WellFormed()
    ensures key in s.table && WriteFrame(s, key, page).Consistent() && Placed(WriteFrame(s, key, page), f, p, None)
  {
    hide Pool.Consistent, Sound, InOrder, WriteFrame, Pool.Pins, SameLists, PinnedUntouched, PageState.WellFormed;
    WriteFrameKeeps(s, key, page);
    WriteFrameSound(s, key, page, f);
    SoundInOrder(WriteFrame(s, key, page), f);
  }

  lemma AllocPageSound(s: Pool, h: FileId, f: FileId)
    requires s.Consistent() && s.Known(h) && MayAllocate(s.disk[s.Home(h)]) && Sound(s, f)
    ensures Sound(BufferPool.AllocPage(s, h).pool, f)
  {
    hide IsVersion, PageState.WellFormed, BufferPool.AllocPage;
    AllocPageVersions(s, h);
    PageRuns.NewPageWellFormed(BufferPool.AllocPage(s, h).page);
    PageRuns.NewPageWellFormed(INVALID_NUMBER);
    assert NewPage().(pageNumber := INVALID_NUMBER) == NewPage();
  }

  lemma WriteFrameSound(s: Pool, key: Key, page: PageState, f: FileId)
    requires s.Consistent() && key in s.table && page.WellFormed() && Sound(s, f)
    ensures Sound(WriteFrame(s, key, page), f)
  {
    hide IsVersion, PageState.WellFormed, WriteFrame;
    WriteFrameVersions(s, key, page);
    SameWellFormed(page);
  }

  lemma SameHeader(s: Pool, held: Option<Key>, r: Pool, holds: Option<Key>, g: FileId, marked: bool, f: FileId)
    requires r.Consistent() && f in s.disk && Harmless(s, held, r, holds, g, marked)
    ensures f in r.disk && r.Known(f) && r.Home(f) == f && MayAllocate(r.disk[f]) == MayAllocate(s.disk[f])
  {
    hide StillSame, Unseen, NoNewVersions, Pool.Pins;
    SameLinksUsed(s.disk[f], r.disk[f]);
  }

  lemma OtherNumber(page: PageState, number: PageId)
    ensures page.(pageNumber := number).WellFormed() == page.WellFormed()
  {
  }

  lemma PinnedThere(s: Pool, key: Key)
    ensures s.Pins(key) > 0 ==> key in s.table
  {
  }

  // A client adds a page with records to the file after the scan has come to its end: the scan still says so.
  method EndIsFinal(scan: FileScan, client: FileId, records: PageState)
    returns (outcome: ScanOutcome, later: ScanOutcome)
    requires scan.Valid() && client in scan.bufMgr.disk && MayAllocate(scan.bufMgr.disk[client])
    requires records.WellFormed()
    modifies scan, scan.bufMgr, scan.bufMgr.bufDescTable, scan.bufMgr.bufPool
    modifies scan.bufMgr.hashTable, scan.bufMgr.hashTable.ht, scan.bufMgr.hashTable.nodes
    ensures scan.bufMgr.Valid()
    ensures outcome == EndOfFile ==> later == EndOfFile
  {
    hide Harmless, Still, BufHashTbl.Valid, Pool.Consistent, Placed, AllPinned, Rest, IsRecord,
         PageState.WellFormed, BufferPool.AllocPage, WriteFrame, InOrder, NoneBetween, NoneAfter;
    ghost var first := scan.bufMgr.State();
    outcome := scan.ScanNext();
    later := outcome;
    if outcome == EndOfFile {
      ghost var s := scan.bufMgr.State();
      SameHeader(first, old(scan.Held()), s, scan.Held(), scan.file, old(scan.curDirtyFlag), client);
      AllocPagePlaced(s, client, scan.file, scan.filePageIter);
      var status, number, frame := scan.bufMgr.AllocPage(client);
      if status == PoolOk {
        var changed := records.(pageNumber := number);
        OtherNumber(records, number);
        WriteFramePlaced(scan.bufMgr.State(), Key(client, number), changed, scan.file, scan.filePageIter);
        scan.bufMgr.ChangePage(client, number, changed);
      }
      later := scan.ScanNext();
    }
  }
}
