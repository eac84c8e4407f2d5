// Whole runs of buffer manager operations, by any number of clients, against pages that are just there.
module BufferRuns {
  import opened Types
  import opened SlottedPage
  import opened Files
  import opened HashTable
  import opened Clock
  import opened BufferPool
  import opened BufferConsistency
  import opened BufferDisk
  import opened BufferCorrectness

  // Change is a client writing through the pointer to a page it has pinned.
  datatype PoolOp =
    | Read(key: Key) | UnPin(key: Key, dirty: bool) | Flush(file: FileId)
    | Alloc(file: FileId) | Dispose(key: Key) | Change(key: Key, page: PageState)

  // The status of an operation, and the page that Alloc was given.
  datatype Answer = Answer(status: PoolStatus, page: PageId)

  // What the operations demand: files exist, pages are changed while pinned, no page is allocated in a file of
  // linked pages with no page in use and several free, and none is disposed of in a blob file or while cached
  // under another object.
  ghost predicate Possible(s: Pool, op: PoolOp)
    requires s.Consistent()
  {
    match op
    case Read(key) => s.Known(key.file)
    case UnPin(_, _) => true
    case Flush(f) => f != 0
    case Alloc(f) => s.Known(f) && MayAllocate(s.disk[s.Home(f)])
    case Dispose(key) => s.Known(key.file) && !s.IsBlob(key.file) && UncachedBut(s, s.Spot(key), Some(key))
    case Change(key, page) => s.Pins(key) > 0 && s.Belongs(key, page)
  }

  // What clients that want to find their changes again do besides: they report them when they unpin, and make
  // them through the first object of the file.
  ghost predicate Admissible(s: Pool, op: PoolOp)
    requires s.Consistent()
  {
    Possible(s, op) && (op.UnPin? ==> Reported(s, op.key, op.dirty)) && !WritesThrough(op, s.aliases.Keys)
  }

  // The operation changes something through one of the given File objects.
  predicate WritesThrough(op: PoolOp, readers: set<FileId>) {
    match op
    case UnPin(key, dirty) => key.file in readers && dirty
    case Alloc(f) => f in readers
    case Dispose(key) => key.file in readers
    case Change(key, _) => key.file in readers
    case _ => false
  }

  ghost function Step(s: Pool, op: PoolOp): (Pool, Answer)
    requires s.Consistent() && Possible(s, op)
  {
    match op
    case Read(key) => var r := ReadPage(s, key); (r.pool, Answer(r.status, 0))
    case UnPin(key, dirty) => var r := UnPinPage(s, key, dirty); (r.pool, Answer(r.status, 0))
    case Flush(f) => var r := FlushFile(s, f); (r.pool, Answer(r.status, 0))
    case Alloc(f) => var r := AllocPage(s, f); (r.pool, Answer(r.status, r.page))
    case Dispose(key) => var r := DisposePage(s, key); (r.pool, Answer(r.status, 0))
    case Change(key, page) => (WriteFrame(s, key, page), Answer(PoolOk, 0))
  }

  // ----- what an operation does to one page, and what it answers -----

  // As a client sees it, were there no buffer pool. The blob files are given.
  function Effect(blobs: set<FileId>, op: PoolOp, answer: Answer, key: Key, before: Option<PageState>):
    Option<PageState>
  {
    match op
    case Alloc(f) =>
      if answer.status == PoolOk && key == Key(f, answer.page) then Some(FreshPage(f in blobs, answer.page))
      else before
    case Dispose(k) => if answer.status == PoolOk && key == k then None else before
    case Change(k, page) => if key == k then Some(Shown(k.file in blobs, page)) else before
    case _ => before
  }

  type Aliases = map<FileId, FileId>

  predicate SamePlace(aliases: Aliases, a: Key, b: Key) {
    HomeIn(aliases, a.file) == HomeIn(aliases, b.file) && a.page == b.page
  }

  // Whether the page is in use, under whatever object.
  function Presence(aliases: Aliases, op: PoolOp, answer: Answer, key: Key, before: bool): bool {
    match op
    case Alloc(f) => before || (answer.status == PoolOk && SamePlace(aliases, key, Key(f, answer.page)))
    case Dispose(k) => before && !(answer.status == PoolOk && SamePlace(aliases, key, k))
    case _ => before
  }

  // How often it is pinned.
  function PinEffect(op: PoolOp, answer: Answer, key: Key, before: int): int {
    match op
    case Read(k) => if answer.status == PoolOk && key == k then before + 1 else before
    case Alloc(f) => if answer.status == PoolOk && key == Key(f, answer.page) then 1 else before
    case UnPin(k, _) => if answer.status == PoolOk && key == k then before - 1 else before
    case Dispose(k) => if answer.status == PoolOk && key == k then 0 else before
    case _ => before
  }

  // What the answer says about a page that is or is not in use, and is pinned that often.
  predicate Fits(op: PoolOp, answer: Answer, key: Key, present: bool, pins: int) {
    match op
    case Read(k) =>
      key == k ==>
        && (answer.status == PoolOk || answer.status == BufferExceeded || answer.status == InvalidPageNumber)
        && (pins > 0 ==> answer.status == PoolOk)
        && (answer.status == PoolOk ==> present) && (answer.status == InvalidPageNumber ==> !present)
    case UnPin(k, _) =>
      key == k ==>
        && (answer.status == PoolOk || answer.status == PageNotPinned || answer.status == NotCached)
        && (answer.status == PoolOk <==> pins > 0)
    case Flush(f) =>
      && (answer.status == PoolOk || answer.status == PagePinned)
      && (key.file == f && pins > 0 ==> answer.status == PagePinned)
    case Alloc(f) =>
      && (answer.status == PoolOk || answer.status == BufferExceeded)
      && (answer.status == PoolOk && key == Key(f, answer.page) ==> !present && pins == 0)
    case Dispose(k) =>
      key == k ==>
        && (answer.status == PoolOk || answer.status == NotCached)
        && (pins > 0 ==> answer.status == PoolOk) && (answer.status == PoolOk ==> present)
    case Change(k, _) =>
      answer.status == PoolOk && (key == k ==> pins > 0)
  }

  // What it says about the pool as a whole.
  ghost predicate Explained(s: Pool, op: PoolOp, answer: Answer) {
    && (op.Read? ==> answer.status == if s.Pins(op.key) == 0 && AllPinned(s) then BufferExceeded
                                      else if s.OnDisk(op.key) then PoolOk else InvalidPageNumber)
    && (op.Alloc? ==> answer.status == if AllPinned(s) then BufferExceeded else PoolOk)
    && (op.Flush? ==> answer.status == if exists page :: s.Pins(Key(op.file, page)) > 0 then PagePinned else PoolOk)
    && forall key :: Fits(op, answer, key, s.OnDisk(key), s.Pins(key))
  }

  // The operations that change how often a page is pinned, or what it holds.
  predicate Touches(op: PoolOp, key: Key) {
    (op.Read? || op.UnPin? || op.Dispose? || op.Change?) && op.key == key
  }

  // Whatever clients report or fail to report, one operation keeps the pool consistent, has the effects on pins
  // and pages in use that it should, and gives an answer that says so; a pinned page keeps its frame unless it
  // is disposed of, and is not changed at all by operations on others.
  lemma StepConsistent(s: Pool, op: PoolOp)
    requires s.Consistent() && Possible(s, op)
    ensures var (r, answer) := Step(s, op);
            && r.Consistent() && r.disk.Keys == s.disk.Keys && |r.descs| == |s.descs| && r.aliases == s.aliases
            && (forall f :: r.IsBlob(f) == s.IsBlob(f))
            && (forall key :: r.OnDisk(key) <==> Presence(s.aliases, op, answer, key, s.OnDisk(key)))
            && (forall key :: r.Pins(key) == PinEffect(op, answer, key, s.Pins(key)))
            && (forall key | s.Pins(key) > 0 && op != Dispose(key) ::
                  key in s.table && key in r.table && r.table[key] == s.table[key])
            && (forall key | s.Pins(key) > 0 && !Touches(op, key) :: Untouched(s, r, key))
  {
    hide Pool.Consistent, Pool.Pins, Shown, SameLists, AllPinned, Untouched,
         ReadPage, UnPinPage, FlushFile, AllocPage, DisposePage, WriteFrame, File.UsedPages, Pool.OnDisk;
    match op
    case Read(key) => ReadPageKeeps(s, key);
    case UnPin(key, dirty) => UnPinPageKeeps(s, key, dirty);
    case Flush(f) => FlushFileKeeps(s, f);
    case Alloc(f) => AllocPageKeeps(s, f);
    case Dispose(key) => DisposePageKeeps(s, key); PinnedUntouchedStay(s, DisposePage(s, key).pool, key);
    case Change(key, page) => WriteFrameKeeps(s, key, page);
  }

  lemma PinnedUntouchedStay(s: Pool, r: Pool, but: Key)
    requires PinnedUntouched(s, r, Some(but))
    ensures forall key | s.Pins(key) > 0 && key != but ::
              key in s.table && key in r.table && r.table[key] == s.table[key]
  {
  }

  lemma StepExplained(s: Pool, op: PoolOp)
    requires s.Consistent() && Possible(s, op)
    ensures Explained(s, op, Step(s, op).1)
  {
    hide Pool.Consistent, Pool.Pins, Shown, SameLists, AllPinned, PinnedUntouched, PinnedStay,
         ReadPage, UnPinPage, FlushFile, AllocPage, DisposePage, WriteFrame, File.UsedPages, Pool.OnDisk;
    match op
    case Read(key) => ReadPageKeeps(s, key); CachedIsOnDisk(s, key); CachedWhenAllPinned(s, key);
    case UnPin(key, dirty) => UnPinPageKeeps(s, key, dirty);
    case Flush(f) => FlushFileKeeps(s, f);
    case Alloc(f) => AllocPageKeeps(s, f); NewPageUnpinned(s, Key(f, AllocPage(s, f).page));
    case Dispose(key) => DisposePageKeeps(s, key); CachedIsOnDisk(s, key);
    case Change(key, page) => WriteFrameKeeps(s, key, page);
  }

  lemma CachedWhenAllPinned(s: Pool, key: Key)
    requires s.Consistent()
    ensures AllPinned(s) ==> (key in s.table <==> s.Pins(key) > 0)
  {
    CachedIsOnDisk(s, key);
  }

  lemma NewPageUnpinned(s: Pool, key: Key)
    requires s.Consistent()
    ensures !s.OnDisk(key) ==> s.Pins(key) == 0
  {
    CachedIsOnDisk(s, key);
  }

  // When changes are reported, one operation does to every page what it would do without a pool.
  lemma StepCorrect(s: Pool, op: PoolOp)
    requires s.Inv() && Admissible(s, op)
    ensures var (r, answer) := Step(s, op);
            && r.Inv() && r.aliases == s.aliases
            && (forall key: Key | key.file !in s.aliases ::
                  r.View(key) == Effect(s.BlobFiles(), op, answer, key, s.View(key)))
  {
    hide Pool.Consistent, Pool.Coherent, Pool.View, Pool.Pins, Shown, NewPage,
         ReadPage, UnPinPage, FlushFile, AllocPage, DisposePage, WriteFrame;
    match op
    case Read(key) => ReadPageCorrect(s, key);
    case UnPin(key, dirty) => UnPinPageCorrect(s, key, dirty);
    case Flush(f) => FlushFileCorrect(s, f);
    case Alloc(f) => AllocPageCorrect(s, f); AllocPageKeeps(s, f);
    case Dispose(key) => DisposePageCorrect(s, key); DisposePageKeeps(s, key);
    case Change(key, page) => WriteFrameCorrect(s, key, page);
  }

  lemma SameBlobFiles(s: Pool, r: Pool)
    requires s.Consistent() && r.Consistent() && r.aliases == s.aliases && r.disk.Keys == s.disk.Keys
    requires forall f :: r.IsBlob(f) == s.IsBlob(f)
    ensures r.BlobFiles() == s.BlobFiles()
    ensures forall f | f !in s.aliases :: f in s.BlobFiles() <==> s.IsBlob(f)
  {
    hide File.WellFormed, File.UsedPages;
    forall f | f in s.disk
      ensures f in r.BlobFiles() <==> f in s.BlobFiles()
    {
      assert r.IsBlob(f) == s.IsBlob(f);
    }
  }

  // A page that nobody can write back changed stays on disk as it is, unless the operation is about it.
  function About(op: PoolOp, answer: Answer): Option<Key> {
    match op
    case UnPin(key, _) => Some(key)
    case Dispose(key) => Some(key)
    case Alloc(f) => if answer.status == PoolOk then Some(Key(f, answer.page)) else None
    case _ => None
  }

  lemma StepDiskKept(s: Pool, op: PoolOp)
    requires s.Consistent() && Possible(s, op)
    ensures DiskKept(s, Step(s, op).0, About(op, Step(s, op).1))
  {
    hide Pool.Consistent, Pool.Pins, Shown, DiskKept, ReadPage, UnPinPage, FlushFile, AllocPage, DisposePage,
         WriteFrame, File.UsedPages, NoNewVersions;
    match op
    case Read(key) => ReadPageDiskKept(s, key);
    case UnPin(key, dirty) => UnPinPageDiskKept(s, key, dirty);
    case Flush(f) => FlushFileDiskKept(s, f);
    case Alloc(f) => AllocPageDiskKept(s, f); AllocPageKeeps(s, f);
    case Dispose(key) => DisposePageDiskKept(s, key);
    case Change(key, page) => WriteFrameDiskKept(s, key, page);
  }

  // The operation is about another file.
  predicate Elsewhere(aliases: Aliases, op: PoolOp, home: FileId) {
    match op
    case Alloc(f) => HomeIn(aliases, f) != home
    case Flush(f) => HomeIn(aliases, f) != home
    case Read(key) => HomeIn(aliases, key.file) != home
    case UnPin(key, _) => HomeIn(aliases, key.file) != home
    case Dispose(key) => HomeIn(aliases, key.file) != home
    case Change(key, _) => HomeIn(aliases, key.file) != home
  }

  lemma StepFramesStay(s: Pool, op: PoolOp, home: FileId)
    requires s.Consistent() && Possible(s, op) && Elsewhere(s.aliases, op, home)
    ensures FramesStay(s, Step(s, op).0, home)
  {
    hide Pool.Consistent, FramesStay, ReadPage, UnPinPage, FlushFile, AllocPage, DisposePage, WriteFrame;
    match op
    case Read(key) => ReadPageFramesStay(s, key, home);
    case UnPin(key, dirty) => UnPinPageFramesStay(s, key, dirty, home);
    case Flush(f) => FlushFileFramesStay(s, f, home);
    case Alloc(f) => AllocPageFramesStay(s, f, home);
    case Dispose(key) => DisposePageFramesStay(s, key, home);
    case Change(key, page) => WriteFrameKeeps(s, key, page); WriteFrameFramesStay(s, key, page, home);
  }

  // Nor do pages of another file come into being in any new form.
  lemma StepVersionsElsewhere(s: Pool, op: PoolOp, home: FileId)
    requires s.Consistent() && Possible(s, op) && Elsewhere(s.aliases, op, home)
    ensures var r := Step(s, op).0;
            forall key: Key, page | s.Home(key.file) == home && IsVersion(r, key, page) :: IsVersion(s, key, page)
  {
    hide Pool.Consistent, FramesStay, DiskFrom, NoNewVersions, IsVersion, DiskKept, ReadPage, UnPinPage, FlushFile,
         AllocPage, DisposePage, WriteFrame, Pool.Pins, Pool.OnDisk, Pool.IsBlob, Untouched;
    StepConsistent(s, op);
    StepFramesStay(s, op, home);
    var r := Step(s, op).0;
    match op {
      case Read(key) => ReadPageDiskKept(s, key); NoNewVersionsDiskFrom(s, r, home);
      case UnPin(key, dirty) => UnPinPageDiskKept(s, key, dirty); NoNewVersionsDiskFrom(s, r, home);
      case Flush(f) => FlushFileDiskKept(s, f); NoNewVersionsDiskFrom(s, r, home);
      case Alloc(f) => AllocPageDiskFrom(s, f, home);
      case Dispose(key) => DisposePageDiskFrom(s, key, home);
      case Change(key, page) => WriteFrameKeeps(s, key, page); WriteFrameDiskFrom(s, key, page, home);
    }
    NoVersionsAdded(s, r, home);
  }

  // ----- the file machine: a file by itself, without a pool -----

  // A successful allocation or disposal changes the lists of its file; nothing else does.
  ghost function FileStep(aliases: Aliases, g: File, op: PoolOp, answer: Answer, f: FileId): File {
    if answer.status != PoolOk || !g.WellFormed() then g
    else match op
      case Alloc(h) => if HomeIn(aliases, h) == f then AllocatedFile(g).file else g
      case Dispose(key) =>
        if HomeIn(aliases, key.file) == f && DeletedFile(g, key.page).Some? then DeletedFile(g, key.page).value else g
      case _ => g
  }

  // The page handed out is the one that the file's lists say, and the page disposed of was in use.
  ghost predicate Numbered(aliases: Aliases, g: File, op: PoolOp, answer: Answer, f: FileId)
    requires g.WellFormed()
  {
    answer.status == PoolOk ==>
      && (op.Alloc? && HomeIn(aliases, op.file) == f ==> answer.page == AllocatedFile(g).number)
      && (op.Dispose? && HomeIn(aliases, op.key.file) == f ==> op.key.page in g.UsedPages())
  }

  // Whatever is written back meanwhile, and however stale its next pointers, the lists of every file are those
  // of the file by itself.
  lemma StepFollowsFile(s: Pool, op: PoolOp, f: FileId, g: File)
    requires s.Consistent() && Possible(s, op)
    requires f in s.disk && g.WellFormed() && SameLinks(g, s.disk[f])
    ensures var (r, answer) := Step(s, op);
            && f in r.disk && FileStep(s.aliases, g, op, answer, f).WellFormed()
            && SameLinks(FileStep(s.aliases, g, op, answer, f), r.disk[f])
            && Numbered(s.aliases, g, op, answer, f)
  {
    hide File.WellFormed, Pool.Pins, Shown, AllPinned, PinnedUntouched, PinnedStay, AllocatedFile, DeletedFile,
         ReadPage, UnPinPage, FlushFile, AllocPage, DisposePage, WriteFrame, File.UsedPages, Pool.OnDisk;
    match op
    case Read(key) => ReadPageKeeps(s, key);
    case UnPin(key, dirty) => UnPinPageKeeps(s, key, dirty);
    case Flush(h) => FlushFileKeeps(s, h);
    case Alloc(h) => AllocPageKeeps(s, h); AllocationFollowed(s, s.Home(h), g);
    case Dispose(key) => DisposePageKeeps(s, key); DisposalFollowed(s, s.Spot(key), g);
    case Change(key, page) => WriteFrameKeeps(s, key, page);
  }

  lemma AllocationFollowed(s: Pool, f: FileId, g: File)
    requires s.Consistent() && f in s.disk && g.WellFormed()
    ensures s.disk[f].WellFormed()
    ensures SameLinks(g, s.disk[f]) && MayAllocate(s.disk[f]) ==>
              && AllocatedFile(g).file.WellFormed()
              && AllocatedFile(g).number == AllocatedFile(s.disk[f]).number
              && SameLinks(AllocatedFile(g).file, AllocatedFile(s.disk[f]).file)
  {
    hide File.WellFormed, AllocatedFile;
    if SameLinks(g, s.disk[f]) {
      AllocatedLinks(g, s.disk[f]);
      AllocateWellFormedIff(g);
    }
  }

  lemma DisposalFollowed(s: Pool, key: Key, g: File)
    requires s.Consistent() && key.file in s.disk && g.WellFormed()
    ensures s.disk[key.file].WellFormed()
    ensures SameLinks(g, s.disk[key.file]) && DeletedFile(s.disk[key.file], key.page).Some? ==>
              && key.page in g.UsedPages()
              && DeletedFile(g, key.page).Some? && DeletedFile(g, key.page).value.WellFormed()
              && SameLinks(DeletedFile(g, key.page).value, DeletedFile(s.disk[key.file], key.page).value)
  {
    hide File.WellFormed, DeletedFile;
    if SameLinks(g, s.disk[key.file]) {
      DeletedLinks(g, s.disk[key.file], key.page);
      DeleteCorrect(g, key.page);
    }
  }

  // ----- runs -----

  ghost predicate PossibleRun(s: Pool, ops: seq<PoolOp>)
    requires s.Consistent()
    decreases |ops|
  {
    ops == [] ||
    (Possible(s, ops[0]) && (StepConsistent(s, ops[0]); PossibleRun(Step(s, ops[0]).0, ops[1..])))
  }

  ghost function Run(s: Pool, ops: seq<PoolOp>): (Pool, seq<Answer>)
    requires s.Consistent() && PossibleRun(s, ops)
    decreases |ops|
  {
    if ops == [] then (s, [])
    else
      StepConsistent(s, ops[0]);
      var (q, answer) := Step(s, ops[0]);
      var (last, answers) := Run(q, ops[1..]);
      (last, [answer] + answers)
  }

  lemma EmptyRun(s: Pool)
    requires s.Consistent()
    ensures PossibleRun(s, []) && Run(s, []) == (s, [])
  {
  }

  // A run goes on with one more operation.
  lemma {:induction false} OneMoreStep(s: Pool, ops: seq<PoolOp>, op: PoolOp)
    requires s.Consistent() && PossibleRun(s, ops)
    ensures Run(s, ops).0.Consistent()
    ensures Possible(Run(s, ops).0, op) ==>
              PossibleRun(s, ops + [op]) && Run(s, ops + [op]).0 == Step(Run(s, ops).0, op).0
    decreases |ops|
  {
    hide Pool.Consistent, Step, Possible;
    if ops == [] {
      assert ops + [op] == [op] && [op][1..] == [];
      if Possible(s, op) {
        StepConsistent(s, op);
        EmptyRun(Step(s, op).0);
      }
    } else {
      StepConsistent(s, ops[0]);
      OneMoreStep(Step(s, ops[0]).0, ops[1..], op);
      assert (ops + [op])[1..] == ops[1..] + [op];
    }
  }

  // In the whole run no client unpins a change as clean.
  ghost predicate ReportedRun(s: Pool, ops: seq<PoolOp>)
    requires s.Consistent() && PossibleRun(s, ops)
    decreases |ops|
  {
    ops == [] ||
    (Admissible(s, ops[0]) && (StepConsistent(s, ops[0]); ReportedRun(Step(s, ops[0]).0, ops[1..])))
  }

  function Effects(blobs: set<FileId>, ops: seq<PoolOp>, answers: seq<Answer>, key: Key, before: Option<PageState>):
    Option<PageState>
    decreases |ops|
  {
    if ops == [] || answers == [] then before
    else Effects(blobs, ops[1..], answers[1..], key, Effect(blobs, ops[0], answers[0], key, before))
  }

  function PinEffects(ops: seq<PoolOp>, answers: seq<Answer>, key: Key, before: int): int
    decreases |ops|
  {
    if ops == [] || answers == [] then before
    else PinEffects(ops[1..], answers[1..], key, PinEffect(ops[0], answers[0], key, before))
  }

  // All answers of the run say of the page what is the case at that point.
  predicate AllFit(aliases: Aliases, ops: seq<PoolOp>, answers: seq<Answer>, key: Key, present: bool, pins: int)
    decreases |ops|
  {
    ops == [] || answers == [] ||
    (Fits(ops[0], answers[0], key, present, pins) &&
     AllFit(aliases, ops[1..], answers[1..], key,
            Presence(aliases, ops[0], answers[0], key, present), PinEffect(ops[0], answers[0], key, pins)))
  }

  ghost function FileRun(aliases: Aliases, g: File, ops: seq<PoolOp>, answers: seq<Answer>, f: FileId): File
    decreases |ops|
  {
    if ops == [] || answers == [] then g
    else FileRun(aliases, FileStep(aliases, g, ops[0], answers[0], f), ops[1..], answers[1..], f)
  }

  ghost predicate AllNumbered(aliases: Aliases, g: File, ops: seq<PoolOp>, answers: seq<Answer>, f: FileId)
    decreases |ops|
  {
    ops == [] || answers == [] ||
    (g.WellFormed() && Numbered(aliases, g, ops[0], answers[0], f) &&
     AllNumbered(aliases, FileStep(aliases, g, ops[0], answers[0], f), ops[1..], answers[1..], f))
  }

  // Over every run, reported or not, table and frames stay in bijection, and pins and answers are those of the
  // reads, allocations, unpins and disposals in the run.
  lemma {:induction false} RunConsistent(s: Pool, ops: seq<PoolOp>, key: Key)
    requires s.Consistent() && PossibleRun(s, ops)
    ensures var (r, answers) := Run(s, ops);
            && r.Consistent() && r.disk.Keys == s.disk.Keys && |r.descs| == |s.descs| && r.aliases == s.aliases
            && r.BlobFiles() == s.BlobFiles() && |answers| == |ops|
            && r.Pins(key) == PinEffects(ops, answers, key, s.Pins(key))
            && AllFit(s.aliases, ops, answers, key, s.OnDisk(key), s.Pins(key))
    decreases |ops|
  {
    hide Pool.Consistent, Pool.Pins, Pool.OnDisk, Step, Possible, PinEffect, Presence, Fits, Untouched;
    if ops != [] {
      StepConsistent(s, ops[0]);
      SameBlobFiles(s, Step(s, ops[0]).0);
      StepExplained(s, ops[0]);
      RunConsistent(Step(s, ops[0]).0, ops[1..], key);
      var answers := Run(s, ops).1;
      assert answers[1..] == Run(Step(s, ops[0]).0, ops[1..]).1;
    }
  }

  // Over every run the lists of each file on disk, and all page numbers handed out, are those of the file by
  // itself: only the successful allocations and disposals in it count. Reads, changes, evictions and flushes,
  // with whatever stale next pointers are written back, do not.
  lemma {:induction false} RunFollowsFile(s: Pool, ops: seq<PoolOp>, f: FileId, g: File)
    requires s.Consistent() && PossibleRun(s, ops)
    requires f in s.disk && g.WellFormed() && SameLinks(g, s.disk[f])
    ensures var (r, answers) := Run(s, ops);
            && f in r.disk && FileRun(s.aliases, g, ops, answers, f).WellFormed()
            && SameLinks(FileRun(s.aliases, g, ops, answers, f), r.disk[f])
            && AllNumbered(s.aliases, g, ops, answers, f)
    decreases |ops|
  {
    hide Pool.Consistent, Step, Possible, File.WellFormed, SameLinks, FileStep, Numbered, Untouched;
    if ops != [] {
      StepConsistent(s, ops[0]);
      StepFollowsFile(s, ops[0], f, g);
      var (q, answer) := Step(s, ops[0]);
      RunFollowsFile(q, ops[1..], f, FileStep(s.aliases, g, ops[0], answer, f));
      var answers := Run(s, ops).1;
      assert answers[1..] == Run(q, ops[1..]).1;
    }
  }

  // Over every run in which changes are reported, through any evictions, flushes and failures, a page looks as
  // the changes, allocations and disposals in the run say and nothing else.
  lemma {:induction false} RunInvisible(s: Pool, ops: seq<PoolOp>, key: Key)
    requires s.Inv() && PossibleRun(s, ops) && ReportedRun(s, ops) && key.file !in s.aliases
    ensures var (r, answers) := Run(s, ops);
            && r.Inv() && r.aliases == s.aliases && r.BlobFiles() == s.BlobFiles()
            && |answers| == |ops|
            && r.View(key) == Effects(s.BlobFiles(), ops, answers, key, s.View(key))
    decreases |ops|
  {
    hide Pool.Consistent, Pool.Coherent, Pool.OthersRead, Pool.View, Step, Admissible, Possible, Effect, Untouched;
    if ops != [] {
      StepConsistent(s, ops[0]);
      SameBlobFiles(s, Step(s, ops[0]).0);
      StepCorrect(s, ops[0]);
      var q := Step(s, ops[0]).0;
      RunInvisible(q, ops[1..], key);
      var answers := Run(s, ops).1;
      assert answers[1..] == Run(q, ops[1..]).1;
    }
  }

  // A client holds a pin on the page before every operation of the run, and the page is not disposed of.
  ghost predicate HeldThroughout(s: Pool, ops: seq<PoolOp>, key: Key)
    requires s.Consistent() && PossibleRun(s, ops)
    decreases |ops|
  {
    s.Pins(key) > 0 &&
    (ops != [] ==>
       ops[0] != Dispose(key) &&
       (StepConsistent(s, ops[0]); HeldThroughout(Step(s, ops[0]).0, ops[1..], key)))
  }

  // Then the page stays in its frame: pointers handed out to pinned pages remain good.
  lemma {:induction false} RunKeepsPinnedPages(s: Pool, ops: seq<PoolOp>, key: Key)
    requires s.Consistent() && PossibleRun(s, ops) && HeldThroughout(s, ops, key)
    ensures var r := Run(s, ops).0;
            key in s.table && key in r.table && r.table[key] == s.table[key]
    decreases |ops|
  {
    hide Pool.Consistent, Step, Possible, Untouched;
    CachedIsOnDisk(s, key);
    if ops != [] {
      StepConsistent(s, ops[0]);
      RunKeepsPinnedPages(Step(s, ops[0]).0, ops[1..], key);
    }
  }

  // So a page read after a run shows what the changes in the run made of it.
  lemma ReadAfterRun(s: Pool, ops: seq<PoolOp>, key: Key)
    requires s.Inv() && PossibleRun(s, ops) && ReportedRun(s, ops) && key.file in s.disk
    ensures Run(s, ops).0.Inv() && Run(s, ops).0.Known(key.file)
    ensures var (q, answers) := Run(s, ops);
            var r := ReadPage(q, key);
            && (r.status == PoolOk ==>
                  && r.frame < |r.pool.frames| && |r.pool.descs| == |r.pool.frames|
                  && Some(r.pool.FrameFace(r.frame)) == Effects(s.BlobFiles(), ops, answers, key, s.View(key)))
            && (r.status == InvalidPageNumber ==> Effects(s.BlobFiles(), ops, answers, key, s.View(key)) == None)
  {
    FirstObject(s, key.file);
    hide Pool.Coherent, Pool.OthersRead, Pool.View, Pool.Pins, Pool.OnDisk, Run, Effects, PinEffects, AllFit,
         PossibleRun, ReportedRun;
    RunConsistent(s, ops, key);
    RunInvisible(s, ops, key);
    ReadPageCorrect(Run(s, ops).0, key);
  }

  lemma FirstObject(s: Pool, f: FileId)
    requires s.Consistent() && f in s.disk
    ensures f !in s.aliases && s.Home(f) == f && s.Known(f)
  {
  }

  // A new buffer pool over files in order; with no frames the hand is meaningless.
  lemma NewPool(n: nat, hand: nat, frames: seq<PageState>, disk: Disk)
    requires |frames| == n && (n > 0 ==> hand < n) && forall f | f in disk :: f != 0 && disk[f].WellFormed()
    ensures Pool(hand, seq(n, _ => CLEARED), frames, map[], disk, map[]).Inv()
  {
    hide File.WellFormed, File.UsedPages;
    var s := Pool(hand, seq(n, _ => CLEARED), frames, map[], disk, map[]);
    assert forall i | 0 <= i < n :: s.FrameConsistent(i);
  }

  // ----- a restart -----

  // The write-back of the destructor keeps the files in order and the same pages in use.
  lemma {:induction false} DestroyKeepsFiles(s: Pool, i: nat)
    requires s.Consistent() && i <= |s.descs|
    ensures var disk := DestroyFrom(s, i);
            && (forall f | f in disk :: f != 0 && disk[f].WellFormed())
            && disk.Keys == s.disk.Keys
            && (forall key: Key | key.file !in s.aliases ::
                  key.file in disk && key.page in disk[key.file].UsedPages() && key.page in disk[key.file].Pages()
                  <==> s.OnDisk(key))
    decreases |s.descs| - i
  {
    hide File.WellFormed, File.UsedPages, WriteDisk;
    if i < |s.descs| {
      var d := s.descs[i];
      if d.valid && d.dirty {
        WrittenConsistent(s, i);
        WriteDiskEffect(s, i);
        DestroyKeepsFiles(s.(disk := WriteDisk(s.disk, s.Spot(Key(d.file, d.page)), s.frames[i])), i + 1);
      } else {
        DestroyKeepsFiles(s, i + 1);
      }
    }
  }

  // A new buffer pool over the disk that the destructor leaves shows clients the same pages if and only if no page
  // was cached, changed, and not marked dirty.
  lemma RestartInvisible(s: Pool, n: nat, hand: nat, frames: seq<PageState>)
    requires s.Consistent() && s.OthersRead()
    requires |frames| == n && (n > 0 ==> hand < n)
    ensures var r := Pool(hand, seq(n, _ => CLEARED), frames, map[], DestroyFrom(s, 0), map[]);
            && r.Inv()
            && ((forall key: Key | key.file !in s.aliases :: r.View(key) == s.View(key))
                <==> forall i | 0 <= i < |s.descs| :: Droppable(s, i))
  {
    hide File.WellFormed, File.UsedPages, Shown;
    var disk := DestroyFrom(s, 0);
    var r := Pool(hand, seq(n, _ => CLEARED), frames, map[], disk, map[]);
    DestroyKeepsFiles(s, 0);
    NewPool(n, hand, frames, disk);
    forall key: Key | key.file !in s.aliases
      ensures s.OnDisk(key) <==> r.OnDisk(key)
      ensures s.OnDisk(key) ==>
        (r.View(key) == s.View(key) <==> key !in s.table || (s.table[key] < |s.descs| && Droppable(s, s.table[key])))
    {
      CachedIsOnDisk(s, key);
      if s.OnDisk(key) {
        assert key in s.table ==> s.Caches(s.table[key], key);
        DestroyCorrect(s, 0, key);
      }
    }
    forall i | 0 <= i < |s.descs| && s.descs[i].valid
      ensures var key := Key(s.descs[i].file, s.descs[i].page); key in s.table && s.table[key] == i && s.OnDisk(key)
      ensures s.descs[i].file in s.aliases ==> Droppable(s, i)
    {
      assert s.FrameConsistent(i);
    }
  }

  // So with no page pinned, and all changes reported, nothing is lost.
  lemma NothingLost(s: Pool)
    requires s.Inv() && forall key :: s.Pins(key) == 0
    ensures forall i | 0 <= i < |s.descs| :: Droppable(s, i)
  {
    hide File.WellFormed, File.UsedPages, Shown;
    forall i | 0 <= i < |s.descs|
      ensures Droppable(s, i)
    {
      assert s.FrameConsistent(i);
      assert s.Pins(Key(s.descs[i].file, s.descs[i].page)) == 0;
    }
  }
}
