// A scan among other clients: what they do to other files, blob files included, leaves the scan where it stands.
module ScanAmong {
  import opened Types
  import opened SlotBytes
  import opened SlottedPage
  import opened Files
  import opened HashTable
  import opened BufferPool
  import opened BufferConsistency
  import opened BufferDisk
  import opened BufferManager
  import opened RecordOrder
  import opened SharedFile
  import opened ScanSteps
  import opened RecordScan
  import opened IndexScan
  import BufferRuns

  // ----- what an operation on another file leaves as it is -----

  // What a scan through object g relies on: its file, and its own pinned page.
  ghost predicate Undisturbing(s: Pool, r: Pool, g: FileId) {
    && Lasting(s, r, g) && r.disk.Keys == s.disk.Keys && |r.descs| == |s.descs|
    && (forall p: PageId :: r.Pins(Key(g, p)) == s.Pins(Key(g, p)))
    && (forall p: PageId | s.Pins(Key(g, p)) > 0 ::
          Key(g, p) in s.table && Key(g, p) in r.table && r.table[Key(g, p)] == s.table[Key(g, p)])
  }

  lemma UndisturbingTransitive(s: Pool, q: Pool, r: Pool, g: FileId)
    requires Undisturbing(s, q, g) && Undisturbing(q, r, g)
    ensures Undisturbing(s, r, g)
  {
    hide Pool.Pins, Lasting;
    LastingTransitive(s, q, r, g);
  }

  lemma NothingDisturbs(s: Pool, g: FileId)
    requires s.Consistent() && s.Known(g)
    ensures Undisturbing(s, s, g)
  {
    hide Pool.View, Still, File.WellFormed, File.UsedPages, IsVersion;
    forall key | s.Pins(key) > 0
      ensures key in s.table
    {
      CachedIsOnDisk(s, key);
    }
  }

  lemma StepElsewhere(s: Pool, op: BufferRuns.PoolOp, g: FileId)
    requires s.Consistent() && BufferRuns.Possible(s, op)
    requires s.Known(g) && BufferRuns.Elsewhere(s.aliases, op, s.Home(g))
    ensures BufferRuns.Step(s, op).0.Consistent() && Undisturbing(s, BufferRuns.Step(s, op).0, g)
  {
    hide Pool.Consistent, BufferRuns.Step, Still, Pool.Pins, DiskKept, FramesStay, IsVersion, Untouched,
         BufferRuns.Possible;
    var (r, answer) := BufferRuns.Step(s, op);
    BufferRuns.StepConsistent(s, op);
    BufferRuns.StepVersionsElsewhere(s, op, s.Home(g));
    BufferRuns.StepDiskKept(s, op);
    BufferRuns.StepFramesStay(s, op, s.Home(g));
    ListsElsewhere(s, op, s.Home(g));
    if Still(s, g) {
      StillElsewhere(s, r, g, BufferRuns.About(op, answer));
    }
  }

  lemma ListsElsewhere(s: Pool, op: BufferRuns.PoolOp, home: FileId)
    requires s.Consistent() && BufferRuns.Possible(s, op) && BufferRuns.Elsewhere(s.aliases, op, home)
    requires home in s.disk
    ensures SameLists(s.disk, BufferRuns.Step(s, op).0.disk, home)
  {
    hide BufferRuns.Step, BufferRuns.Possible, File.WellFormed, File.UsedPages;
    BufferRuns.StepFollowsFile(s, op, home, s.disk[home]);
  }

  lemma StillElsewhere(s: Pool, r: Pool, g: FileId, but: Option<Key>)
    requires s.Consistent() && r.Consistent() && s.Known(g) && Still(s, g) && r.aliases == s.aliases
    requires r.disk.Keys == s.disk.Keys && SameLists(s.disk, r.disk, s.Home(g))
    requires forall f :: r.IsBlob(f) == s.IsBlob(f)
    requires forall key: Key | s.Home(key.file) == s.Home(g) :: r.OnDisk(key) <==> s.OnDisk(key)
    requires DiskKept(s, r, but) && FramesStay(s, r, s.Home(g)) && (but.Some? ==> s.Home(but.value.file) != s.Home(g))
    ensures Still(r, g) && SameFile(s, r, g)
  {
    hide File.WellFormed, File.UsedPages, Shown, Pool.View, Calm;
    forall i | 0 <= i < |r.descs| && r.descs[i].valid && r.descs[i].file == g
      ensures r.Clean(i)
    {
      assert s.Clean(i) && Calm(s, Key(g, r.descs[i].page));
    }
    forall p
      ensures Calm(r, Key(g, p)) && DiskView(r, Key(g, p)) == DiskView(s, Key(g, p))
    {
      assert Calm(s, Key(g, p));
    }
    StillView(s, g);
    StillView(r, g);
  }

  // ----- runs of others -----

  lemma {:induction false} RunElsewhere(s: Pool, ops: seq<BufferRuns.PoolOp>, g: FileId)
    requires s.Consistent() && BufferRuns.PossibleRun(s, ops) && s.Known(g)
    requires forall i | 0 <= i < |ops| :: BufferRuns.Elsewhere(s.aliases, ops[i], s.Home(g))
    ensures BufferRuns.Run(s, ops).0.Consistent() && Undisturbing(s, BufferRuns.Run(s, ops).0, g)
    decreases |ops|
  {
    hide Pool.Consistent, BufferRuns.Step, BufferRuns.Possible, StillSame, Pool.Pins, BufferRuns.Elsewhere, IsVersion;
    if ops == [] {
      NothingDisturbs(s, g);
    } else {
      StepElsewhere(s, ops[0], g);
      var q := BufferRuns.Step(s, ops[0]).0;
      RunElsewhere(q, ops[1..], g);
      UndisturbingTransitive(s, q, BufferRuns.Run(q, ops[1..]).0, g);
    }
  }

  lemma PlacedElsewhere(s: Pool, r: Pool, g: FileId, p: PageId, curPage: Option<FrameId>)
    requires s.Consistent() && r.Consistent() && Undisturbing(s, r, g) && Placed(s, g, p, curPage)
    ensures Placed(r, g, p, curPage)
  {
    hide Pool.Consistent, IsVersion, PageState.WellFormed, Pool.Pins, StillSame, InOrder;
    SoundInOrder(r, g);
    FramesMatch(s);
    FramesMatch(r);
    PinnedOnce(s, g, p, curPage);
  }

  lemma PinnedOnce(s: Pool, g: FileId, p: PageId, curPage: Option<FrameId>)
    requires Placed(s, g, p, curPage)
    ensures curPage.Some? ==> s.Pins(Key(g, p)) == 1
  {
  }

  lemma RestElsewhere(s: Pool, r: Pool, g: FileId, p: PageId, at: Option<SlotId>)
    requires Undisturbing(s, r, g) && InOrder(s, g) && InOrder(r, g)
    ensures r.Known(g) && (Still(s, g) ==> Still(r, g) && Rest(r, g, p, at) == Rest(s, g, p, at))
  {
    hide Pool.View, Pool.Pins, InOrder, Rest, IsVersion;
    if Still(s, g) {
      SameRest(s, r, g, p, at);
    }
  }

  // A scan goes on where it stood after whatever others have done to other files between two of its calls: it
  // stands on the same page, in the same frame, and what no form of a page lacks is still in every form. If
  // evictions cannot change its file on disk, it has the same records to come.
  lemma ScanGoesOn(s: Pool, ops: seq<BufferRuns.PoolOp>, g: FileId, p: PageId, curPage: Option<FrameId>,
                   at: Option<SlotId>)
    requires s.Consistent() && BufferRuns.PossibleRun(s, ops) && Placed(s, g, p, curPage)
    requires forall i | 0 <= i < |ops| :: BufferRuns.Elsewhere(s.aliases, ops[i], s.Home(g))
    ensures var r := BufferRuns.Run(s, ops).0;
            && r.Consistent() && Placed(r, g, p, curPage)
            && (forall rid | Everywhere(s, g, rid) :: Everywhere(r, g, rid))
            && (Still(s, g) ==> Still(r, g) && Rest(r, g, p, at) == Rest(s, g, p, at))
  {
    hide Pool.Consistent, Pool.Pins, BufferRuns.Run, BufferRuns.PossibleRun, Rest, Still, Sound, InOrder, Private,
         Everywhere;
    RunElsewhere(s, ops, g);
    var r := BufferRuns.Run(s, ops).0;
    PlacedElsewhere(s, r, g, p, curPage);
    RestElsewhere(s, r, g, p, at);
    EverywhereKept(s, r, g);
  }

  // ----- the loop of a scan, with others at work between its calls -----

  method IsPossible(bufMgr: BufMgr, op: BufferRuns.PoolOp) returns (possible: bool)
    requires bufMgr.Valid()
    ensures possible <==> BufferRuns.Possible(bufMgr.State(), op)
  {
    hide Pool.Consistent, BufHashTbl.Valid;
    match op
    case Read(key) => possible := bufMgr.Home(key.file) in bufMgr.disk;
    case UnPin(_, _) => possible := true;
    case Flush(f) => possible := f != 0;
    case Alloc(f) => possible := bufMgr.Home(f) in bufMgr.disk && MayAllocate(bufMgr.disk[bufMgr.Home(f)]);
    case Dispose(key) =>
      possible := bufMgr.Home(key.file) in bufMgr.disk && bufMgr.disk[bufMgr.Home(key.file)].Paged?;
      if possible {
        possible := IsUncachedBut(bufMgr, key);
      }
    case Change(key, page) =>
      var found, i := bufMgr.hashTable.Lookup(key);
      CachedFrame(bufMgr.State(), key);
      var home := bufMgr.Home(key.file);
      possible := found == HashOk && bufMgr.bufDescTable[i].pinCnt > 0 &&
        ((home in bufMgr.disk && bufMgr.disk[home].Blob?) || page.pageNumber == key.page);
  }

  // Whether the page is not cached under another object.
  method IsUncachedBut(bufMgr: BufMgr, key: Key) returns (uncached: bool)
    requires bufMgr.Valid()
    ensures uncached <==> UncachedBut(bufMgr.State(), bufMgr.State().Spot(key), Some(key))
  {
    hide Pool.Consistent, BufHashTbl.Valid;
    uncached := true;
    ghost var s := bufMgr.State();
    var i := 0;
    while i < bufMgr.numBufs && uncached
      invariant i <= bufMgr.numBufs
      invariant uncached <==> forall j | 0 <= j < i :: !CachedElsewhere(s, key, j)
    {
      var d := bufMgr.bufDescTable[i];
      uncached := !(d.valid && bufMgr.Home(d.file) == bufMgr.Home(key.file) && d.page == key.page && KeyOf(d) != key);
      assert CachedElsewhere(s, key, i) == !uncached;
      i := i + 1;
    }
    UncachedFrames(s, key);
  }

  ghost predicate CachedElsewhere(s: Pool, key: Key, i: FrameId) {
    i < |s.descs| && s.descs[i].valid && s.Spot(KeyOf(s.descs[i])) == s.Spot(key) && KeyOf(s.descs[i]) != key
  }

  lemma UncachedFrames(s: Pool, key: Key)
    requires s.Consistent()
    ensures UncachedBut(s, s.Spot(key), Some(key)) <==> forall i | 0 <= i < |s.descs| :: !CachedElsewhere(s, key, i)
  {
    hide File.WellFormed, File.UsedPages;
    if UncachedBut(s, s.Spot(key), Some(key)) {
      forall i | 0 <= i < |s.descs|
        ensures !CachedElsewhere(s, key, i)
      {
        assert s.FrameConsistent(i);
      }
    }
    if forall i | 0 <= i < |s.descs| :: !CachedElsewhere(s, key, i) {
      forall other | other in s.table && s.Spot(other) == s.Spot(key)
        ensures other == key
      {
        assert s.Caches(s.table[other], other) && !CachedElsewhere(s, key, s.table[other]);
      }
    }
  }

  lemma CachedFrame(s: Pool, key: Key)
    requires s.Consistent()
    ensures key in s.table ==> s.table[key] < |s.descs|
    ensures s.Pins(key) > 0 ==> key in s.table
  {
    CachedIsOnDisk(s, key);
  }

  method Perform(bufMgr: BufMgr, op: BufferRuns.PoolOp) returns (answer: BufferRuns.Answer)
    requires bufMgr.Valid() && BufferRuns.Possible(bufMgr.State(), op)
    modifies bufMgr, bufMgr.bufDescTable, bufMgr.bufPool
    modifies bufMgr.hashTable, bufMgr.hashTable.ht, bufMgr.hashTable.nodes
    ensures bufMgr.Valid() && fresh(bufMgr.hashTable.nodes - old(bufMgr.hashTable.nodes))
    ensures (bufMgr.State(), answer) == BufferRuns.Step(old(bufMgr.State()), op)
  {
    hide Pool.Consistent, BufHashTbl.Valid, BufferPool.ReadPage, BufferPool.UnPinPage, BufferPool.FlushFile,
         BufferPool.AllocPage, BufferPool.DisposePage, WriteFrame, UncachedBut;
    var status, number, frame := PoolOk, INVALID_NUMBER, 0;
    match op {
      case Read(key) => status, frame := bufMgr.ReadPage(key.file, key.page);
      case UnPin(key, dirty) => status := bufMgr.UnPinPage(key.file, key.page, dirty);
      case Flush(f) => status := bufMgr.FlushFile(f);
      case Alloc(f) => status, number, frame := bufMgr.AllocPage(f);
      case Dispose(key) => status := bufMgr.DisposePage(key.file, key.page);
      case Change(key, page) => bufMgr.ChangePage(key.file, key.page, page);
    }
    answer := BufferRuns.Answer(status, number);
  }

  // Other clients do what is possible of what they want, on other files. The scan stands where it stood.
  method LetOthers(scan: FileScan, ops: seq<BufferRuns.PoolOp>) returns (ghost done: seq<BufferRuns.PoolOp>)
    requires scan.Valid()
    requires forall i | 0 <= i < |ops| ::
               BufferRuns.Elsewhere(scan.bufMgr.aliases, ops[i], scan.bufMgr.Home(scan.file))
    modifies scan.bufMgr, scan.bufMgr.bufDescTable, scan.bufMgr.bufPool
    modifies scan.bufMgr.hashTable, scan.bufMgr.hashTable.ht, scan.bufMgr.hashTable.nodes
    ensures scan.Valid() && fresh(scan.bufMgr.hashTable.nodes - old(scan.bufMgr.hashTable.nodes))
    ensures BufferRuns.PossibleRun(old(scan.bufMgr.State()), done)
    ensures scan.bufMgr.State() == BufferRuns.Run(old(scan.bufMgr.State()), done).0
    ensures Undisturbing(old(scan.bufMgr.State()), scan.bufMgr.State(), scan.file)
  {
    hide Pool.Consistent, BufHashTbl.Valid, BufferRuns.Possible, BufferRuns.Step, Placed, Undisturbing, Rest,
         BufferRuns.PossibleRun, BufferRuns.Run, BufferRuns.Elsewhere;
    ghost var s, home := scan.bufMgr.State(), scan.bufMgr.Home(scan.file);
    done := [];
    BufferRuns.EmptyRun(s);
    for i := 0 to |ops|
      invariant scan.bufMgr.Valid() && fresh(scan.bufMgr.hashTable.nodes - old(scan.bufMgr.hashTable.nodes))
      invariant BufferRuns.PossibleRun(s, done) && scan.bufMgr.State() == BufferRuns.Run(s, done).0
      invariant forall j | 0 <= j < |done| :: BufferRuns.Elsewhere(s.aliases, done[j], home)
    {
      var possible := IsPossible(scan.bufMgr, ops[i]);
      if possible {
        BufferRuns.OneMoreStep(s, done, ops[i]);
        done := done + [ops[i]];
        var _ := Perform(scan.bufMgr, ops[i]);
      }
    }
    PlacedKnown(s, scan.file, scan.filePageIter, scan.curPage);
    RunElsewhere(s, done, scan.file);
    PlacedElsewhere(s, scan.bufMgr.State(), scan.file, scan.filePageIter, scan.curPage);
  }

  // What others do to other files does not change what the scan has found and has to come.
  lemma ReadingGoesOn(s: Pool, q: Pool, r: Pool, g: FileId, p: PageId, at: Option<SlotId>)
    requires Lasting(s, q, g) && Undisturbing(q, r, g) && InOrder(q, g) && InOrder(r, g)
    ensures Lasting(s, r, g) && (Still(s, g) ==> Rest(r, g, p, at) == Rest(q, g, p, at))
  {
    hide Pool.Pins, Rest, InOrder, Still, IsVersion;
    LastingTransitive(s, q, r, g);
    RestElsewhere(q, r, g, p, at);
  }

  lemma SameObjects(s: Pool, r: Pool, g: FileId)
    requires Lasting(s, r, g)
    ensures r.aliases == s.aliases
  {
  }

  // The loop of IndexScan.ReadOn, where others do something each time a record has been found, as the index does
  // with its own file: still every record until the end of the file, which is reached unless there is no frame for
  // the first page, with bytes it had when the scan began.
  method ReadAmong(scan: FileScan, others: seq<seq<BufferRuns.PoolOp>>)
    returns (complete: bool, rids: seq<RecordId>, records: seq<seq<byte>>)
    requires scan.Valid() && StandsOn(scan, [])
    requires forall k, i | 0 <= k < |others| && 0 <= i < |others[k]| ::
               BufferRuns.Elsewhere(scan.bufMgr.aliases, others[k][i], scan.bufMgr.Home(scan.file))
    modifies scan, scan.bufMgr, scan.bufMgr.bufDescTable, scan.bufMgr.bufPool
    modifies scan.bufMgr.hashTable, scan.bufMgr.hashTable.ht, scan.bufMgr.hashTable.nodes
    ensures scan.Valid() && fresh(scan.bufMgr.hashTable.nodes - old(scan.bufMgr.hashTable.nodes))
    ensures complete <==> !old(Starved(scan.bufMgr.State(), scan.file))
    ensures Collected(old(scan.bufMgr.State()), scan.file, rids, records)
    ensures if complete then Covered(old(scan.bufMgr.State()), scan.file, rids) else rids == []
    ensures old(Still(scan.bufMgr.State(), scan.file)) && complete ==>
              && Listed(old(scan.bufMgr.State()), scan.file, rids, records)
              && rids == AllRecords(old(scan.bufMgr.State()), scan.file)
  {
    hide Harmless, Still, BufHashTbl.Valid, Pool.Consistent, InOrder, Sound, AllPinned, AllRecords, Rest, Listed,
         Collected, NoneMissed, Covered, Private, Starved, Lasting, Undisturbing, BufferRuns.Elsewhere, Everywhere;
    ghost var s := scan.bufMgr.State();
    ghost var last, size := RecordId(0, 0), s.disk[s.Home(scan.file)].Header().numPages;
    StartReading(s, scan.file, scan.filePageIter, scan.curDirtyFlag);
    rids, records, complete := [], [], false;
    while true
      invariant scan.Valid() && fresh(scan.bufMgr.hashTable.nodes - old(scan.bufMgr.hashTable.nodes))
      invariant Lasting(s, scan.bufMgr.State(), scan.file)
      invariant Collected(s, scan.file, rids, records) && NoneMissed(s, scan.file, rids, scan.At())
      invariant StandsOn(scan, rids) && scan.At() == last
      invariant rids == [] ==> scan.bufMgr.State() == s
      invariant rids != [] ==> !Starved(s, scan.file)
      invariant (last == RecordId(0, 0) || last.pageNumber < size) && last.slotNumber <= DATA_SIZE
      invariant Still(s, scan.file) ==>
        Listed(s, scan.file, rids, records) && AllRecords(s, scan.file) == rids + scan.Remaining()
      decreases size + 1 - last.pageNumber, DATA_SIZE - last.slotNumber
    {
      var outcome, record := ReadNext(scan, s, rids, records);
      match outcome
      case Found(rid) =>
        rids := rids + [rid];
        records := records + [record];
        last := rid;
        if |rids| <= |others| {
          ghost var q := scan.bufMgr.State();
          SameObjects(s, q, scan.file);
          ghost var _ := LetOthers(scan, others[|rids| - 1]);
          ReadingGoesOn(s, q, scan.bufMgr.State(), scan.file, scan.filePageIter, Some(rid.slotNumber));
        }
      case EndOfFile =>
        complete := true;
        break;
      case NoFrame =>
        break;
    }
  }
}
