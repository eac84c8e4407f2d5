// The steps of a scan on the value of the pool: where a scan can be, and what entering and leaving a page does.
module ScanSteps {
  import opened Types
  import opened SlottedPage
  import opened PageList
  import opened Files
  import opened HashTable
  import opened BufferPool
  import opened BufferConsistency
  import opened BufferDisk
  import opened BufferCorrectness
  import opened RecordOrder
  import opened SharedFile

  // ----- what a scan leaves alone -----

  function One(held: Option<Key>, key: Key): nat {
    if held == Some(key) then 1 else 0
  }

  // Between s and r the scan has moved its own pin, if any, from one page to another. Other pins, pinned pages and
  // lists are as before, and pages exist in no new form.
  ghost predicate Undisturbed(s: Pool, held: Option<Key>, r: Pool, holds: Option<Key>) {
    && r.aliases == s.aliases && r.disk.Keys == s.disk.Keys && |r.descs| == |s.descs|
    && (forall f | f in s.disk :: SameLists(s.disk, r.disk, f))
    && (forall key :: r.Pins(key) - One(holds, key) == s.Pins(key) - One(held, key))
    && (forall key | s.Pins(key) > One(held, key) :: key in s.table && key in r.table && r.table[key] == s.table[key])
    && NoNewVersions(s, r)
  }

  // Clients see what they saw, if they have kept to the rules.
  ghost predicate Unseen(s: Pool, r: Pool) {
    s.Inv() ==> r.Inv() && SameView(s, r)
  }

  // What the scan's own object shows stays as it is, if evictions cannot change it.
  ghost predicate StillSame(s: Pool, r: Pool, g: FileId) {
    Still(s, g) ==> Still(r, g) && SameFile(s, r, g)
  }

  // All of this; clients are concerned unless the scan has marked a page dirty.
  ghost predicate Harmless(s: Pool, held: Option<Key>, r: Pool, holds: Option<Key>, g: FileId, marked: bool) {
    Undisturbed(s, held, r, holds) && StillSame(s, r, g) && (!marked ==> Unseen(s, r))
  }

  lemma HarmlessTransitive(s: Pool, a: Option<Key>, q: Pool, b: Option<Key>, r: Pool, c: Option<Key>, g: FileId,
                           marked: bool)
    requires Harmless(s, a, q, b, g, marked) && Harmless(q, b, r, c, g, marked)
    ensures Harmless(s, a, r, c, g, marked)
  {
    hide Pool.View, Pool.Pins, Pool.Inv, Still, IsVersion;
  }

  lemma NothingHarmed(s: Pool, held: Option<Key>, g: FileId, marked: bool)
    requires s.Consistent() && s.Known(g)
    ensures Harmless(s, held, s, held, g, marked)
  {
    hide Pool.View, IsVersion, Still, File.WellFormed, File.UsedPages;
    forall key | s.Pins(key) > 0
      ensures key in s.table
    {
      CachedIsOnDisk(s, key);
    }
  }

  // ----- where a scan can be -----

  // Every form in which a page of the file exists is well formed.
  ghost predicate Sound(s: Pool, f: FileId) {
    forall p: PageId, page | IsVersion(s, Key(f, p), page) :: page.WellFormed()
  }

  lemma SoundInOrder(s: Pool, f: FileId)
    requires s.Consistent() && Sound(s, f)
    ensures InOrder(s, f)
  {
    hide PageState.WellFormed, File.WellFormed, File.UsedPages, Shown;
    forall p: PageId, page: PageState | s.View(Key(f, p)) == Some(page)
      ensures page.WellFormed()
    {
      ViewIsVersion(s, Key(f, p));
    }
  }

  lemma ViewIsVersion(s: Pool, key: Key)
    requires s.Consistent() && s.View(key).Some?
    ensures IsVersion(s, key, s.View(key).value)
  {
    hide File.WellFormed, File.UsedPages, Shown;
    CachedIsOnDisk(s, key);
    if key in s.table {
      assert s.Caches(s.table[key], key);
      assert Holds(s, s.table[key], key, s.View(key).value);
    }
  }

  lemma SoundKept(s: Pool, r: Pool, f: FileId)
    requires Sound(s, f) && NoNewVersions(s, r)
    ensures Sound(r, f)
  {
    hide IsVersion, PageState.WellFormed;
  }

  // Nobody but the scan pins pages under its File object, and the scan pins the given page only.
  ghost predicate Private(s: Pool, f: FileId, held: Option<Key>) {
    forall p: PageId :: s.Pins(Key(f, p)) == One(held, Key(f, p))
  }

  // The page a scan has pinned is the one its file iterator is on. Its File object, which is not the first of the
  // file, is its own.
  ghost predicate Placed(s: Pool, f: FileId, p: PageId, curPage: Option<FrameId>) {
    && f in s.aliases && s.Known(f) && !s.IsBlob(f) && Sound(s, f) && InOrder(s, f)
    && Private(s, f, if curPage.Some? then Some(Key(f, p)) else None)
    && (curPage.Some? ==> p != 0 && Key(f, p) in s.table && s.table[Key(f, p)] == curPage.value < |s.frames|)
  }

  lemma PlacedKnown(s: Pool, g: FileId, p: PageId, curPage: Option<FrameId>)
    requires Placed(s, g, p, curPage)
    ensures s.Known(g) && !s.IsBlob(g) && InOrder(s, g) && (curPage.Some? ==> p != 0)
  {
  }

  lemma OpenedPrivate(s: Pool, f: FileId, g: FileId)
    requires s.Consistent() && s.Known(f) && Unused(s, g)
    ensures Private(Opened(s, f, g), g, None)
  {
    hide File.WellFormed, File.UsedPages;
    forall p: PageId
      ensures Key(g, p) !in s.table
    {
      CachedIsOnDisk(s, Key(g, p));
    }
  }

  lemma PrivateKept(s: Pool, held: Option<Key>, r: Pool, holds: Option<Key>, g: FileId, marked: bool)
    requires Harmless(s, held, r, holds, g, marked) && Private(s, g, held)
    ensures Private(r, g, holds)
  {
    hide Pool.View, Pool.Pins, IsVersion, Still;
  }

  ghost predicate IsNextSlotIn(frames: seq<PageState>, i: FrameId, start: SlotId, slot: SlotId) {
    i < |frames| && frames[i].Readable() && IsNextSlot(frames[i], start, slot)
  }

  lemma UsedOnDisk(s: Pool, f: FileId, p: PageId, i: FrameId)
    requires s.Consistent() && Placed(s, f, p, Some(i))
    ensures i < |s.frames| == |s.descs| && s.OnDisk(Key(f, p))
    ensures ReadFilePage(s.disk[s.Home(f)], p) == Some(s.DiskPage(Key(f, p))) && s.DiskPage(Key(f, p)).pageNumber == p
    ensures s.frames[i].pageNumber == p && s.View(Key(f, p)) == Some(s.FrameFace(i))
    ensures s.frames[i].WellFormed() && s.frames[i].Readable()
  {
    hide PageState.WellFormed, File.WellFormed, File.UsedPages, Sound, Shown;
    CachedIsOnDisk(s, Key(f, p));
    ReadFromDisk(s, Key(f, p));
    DiskPageNumber(s, Key(f, p));
    assert s.Caches(i, Key(f, p));
    assert s.FrameConsistent(i);
    SameWellFormed(s.frames[i]);
  }

  lemma SameWellFormed(page: PageState)
    ensures page.WellFormed() == Shown(false, page).WellFormed() && (page.WellFormed() ==> page.Readable())
  {
  }

  lemma UsedPageOnDisk(s: Pool, key: Key)
    requires s.Consistent() && s.OnDisk(key) && !s.IsBlob(key.file)
    ensures ReadFilePage(s.disk[s.Home(key.file)], key.page) == Some(s.DiskPage(key))
    ensures s.DiskPage(key).pageNumber == key.page != 0 && s.View(key).Some?
  {
    hide File.WellFormed, Shown;
    ReadFromDisk(s, key);
    DiskPageNumber(s, key);
    CachedIsOnDisk(s, key);
  }

  // ----- walking -----

  // The rest of a scan that comes to page p from the page before it, or to the first page.
  lemma TurnPage(s: Pool, f: FileId, p: PageId, n: PageId)
    requires s.Consistent() && s.Known(f) && InOrder(s, f) && IsNext(s.disk[s.Home(f)].UsedPages(), p, n)
    ensures RecordsFrom(s, f, p + 1) == Rest(s, f, n, Some(0))
  {
    hide PageState.WellFormed, File.UsedPages, PageRecords, Pool.View, Pool.Consistent;
    NextPageIsNext(s, f, p, n, p + 1);
    NoPagesBeyond(s, f, n);
  }

  lemma NoPagesBeyond(s: Pool, f: FileId, p: PageId)
    requires s.Consistent() && s.Known(f) && InOrder(s, f)
    ensures p >= s.disk[s.Home(f)].Header().numPages ==> PageRecords(s.View(Key(f, p)), p, 1) == []
  {
    PagesInRange(s, f);
  }

  lemma FirstIsUsed(members: set<PageId>, p: PageId, n: PageId)
    requires IsNext(members, p, n)
    ensures n != 0 ==> n in members && p < n
  {
  }

  lemma FirstPage(s: Pool, f: FileId)
    requires s.Consistent() && s.Known(f) && !s.IsBlob(f) && InOrder(s, f)
    ensures var first := s.disk[s.Home(f)].Header().firstUsed;
            && AllRecords(s, f) == Rest(s, f, first, Some(0)) && IsNext(s.disk[s.Home(f)].UsedPages(), 0, first)
            && (first != 0 ==> first in s.disk[s.Home(f)].UsedPages())
  {
    hide PageState.WellFormed, Rest, RecordsFrom, Pool.View, File.WellFormed, File.UsedPages, IsNext, InOrder;
    LinksAscend(s.disk[s.Home(f)]);
    FirstIsUsed(s.disk[s.Home(f)].UsedPages(), 0, s.disk[s.Home(f)].Header().firstUsed);
    TurnPage(s, f, 0, s.disk[s.Home(f)].Header().firstUsed);
  }

  lemma NextPage(s: Pool, f: FileId, p: PageId)
    requires s.Consistent() && s.Known(f) && !s.IsBlob(f) && InOrder(s, f) && p in s.disk[s.Home(f)].UsedPages()
    ensures p in s.disk[s.Home(f)].Pages()
    ensures var n := s.disk[s.Home(f)].Pages()[p].nextPage;
            && RecordsFrom(s, f, p + 1) == Rest(s, f, n, Some(0)) && IsNext(s.disk[s.Home(f)].UsedPages(), p, n)
            && (n != 0 ==> n in s.disk[s.Home(f)].UsedPages() && p < n < s.disk[s.Home(f)].Header().numPages)
  {
    hide PageState.WellFormed, Rest, RecordsFrom, Pool.View, File.WellFormed, File.UsedPages, IsNext, InOrder;
    UsedPagesExist(s.disk[s.Home(f)]);
    LinksAscend(s.disk[s.Home(f)]);
    FirstIsUsed(s.disk[s.Home(f)].UsedPages(), p, s.disk[s.Home(f)].Pages()[p].nextPage);
    TurnPage(s, f, p, s.disk[s.Home(f)].Pages()[p].nextPage);
  }

  lemma RestOnPage(s: Pool, f: FileId, p: PageId, frame: FrameId, i: SlotId, slot: SlotId)
    requires s.Consistent() && Placed(s, f, p, Some(frame)) && IsNextSlotIn(s.frames, frame, i, slot)
    ensures s.frames[frame].pageNumber == p
    ensures slot != 0 ==> IsRecord(s, f, RecordId(p, slot)) && i < slot
    ensures Rest(s, f, p, Some(i)) ==
            if slot == 0 then RecordsFrom(s, f, p + 1) else [RecordId(p, slot)] + Rest(s, f, p, Some(slot))
  {
    hide PageState.WellFormed, File.UsedPages, RecordsFrom, PageRecords, Pool.View, Pool.Pins,
         Pool.Consistent, Sound;
    UsedOnDisk(s, f, p, frame);
    SameNextSlot(s.frames[frame], i, slot);
    NextSlotIsNext(s.View(Key(f, p)), p, i, slot, i + 1);
  }

  lemma SameNextSlot(page: PageState, i: SlotId, n: SlotId)
    requires page.Readable() && IsNextSlot(page, i, n)
    ensures Shown(false, page).Readable() && IsNextSlot(Shown(false, page), i, n)
  {
    assert forall j: SlotId :: page.Live(j) == Shown(false, page).Live(j);
  }

  lemma RestAtEnds(s: Pool, f: FileId, p: PageId)
    requires s.Known(f) && InOrder(s, f)
    ensures forall at :: Rest(s, f, 0, at) == []
    ensures p != 0 ==> Rest(s, f, p, None) == AllRecords(s, f)
  {
  }

  // What is to come stays the same while evictions cannot change it.
  lemma RestKept(s: Pool, held: Option<Key>, r: Pool, holds: Option<Key>, f: FileId, marked: bool, p: PageId,
                 at: Option<SlotId>)
    requires s.Known(f) && InOrder(s, f) && InOrder(r, f) && Harmless(s, held, r, holds, f, marked)
    ensures r.Known(f) && r.disk[r.Home(f)].Header() == s.disk[s.Home(f)].Header()
    ensures Still(s, f) ==>
              Still(r, f) && Rest(r, f, p, at) == Rest(s, f, p, at) && AllRecords(r, f) == AllRecords(s, f)
  {
    hide InOrder, Rest, Pool.Pins, Pool.View, NoNewVersions, AllRecords;
    if Still(s, f) {
      SameRest(s, r, f, p, at);
      SameAll(s, r, f);
    }
  }

  lemma SameAll(s: Pool, r: Pool, f: FileId)
    requires InOrder(s, f) && SameFile(s, r, f)
    ensures r.Known(f) && InOrder(r, f) && AllRecords(r, f) == AllRecords(s, f)
  {
    hide PageState.WellFormed, Pool.View;
    RecordOrder.SameRecords(s, r, f, 1);
  }

  // ----- what a scan cannot miss -----

  // Every form of the page, on disk and in frames, has the record.
  ghost predicate Everywhere(s: Pool, f: FileId, rid: RecordId) {
    && s.OnDisk(Key(f, rid.pageNumber))
    && forall page | IsVersion(s, Key(f, rid.pageNumber), page) :: page.WellFormed() && page.Live(rid.slotNumber)
  }

  // None of these records after a is before b.
  ghost predicate NoneBetween(s: Pool, f: FileId, a: RecordId, b: RecordId) {
    forall rid | Everywhere(s, f, rid) && Before(a, rid) :: !Before(rid, b)
  }

  ghost predicate NoneAfter(s: Pool, f: FileId, a: RecordId) {
    forall rid | Everywhere(s, f, rid) :: !Before(a, rid)
  }

  // Those after a are also after b.
  ghost predicate PassedTo(s: Pool, f: FileId, a: RecordId, b: RecordId) {
    forall rid | Everywhere(s, f, rid) && Before(a, rid) :: Before(b, rid)
  }

  // The file has the same pages in use, and they exist in no new form.
  ghost predicate NoNewForms(s: Pool, r: Pool, f: FileId) {
    && r.aliases == s.aliases && s.Known(f) && SameLists(s.disk, r.disk, s.Home(f))
    && forall p: PageId, page | IsVersion(r, Key(f, p), page) :: IsVersion(s, Key(f, p), page)
  }

  lemma HarmlessForms(s: Pool, held: Option<Key>, r: Pool, holds: Option<Key>, g: FileId, marked: bool)
    requires Harmless(s, held, r, holds, g, marked) && s.Known(g)
    ensures NoNewForms(s, r, g)
  {
    hide Pool.View, Pool.Pins, IsVersion, Still;
  }

  // What a scan through object g relies on in what becomes of the file.
  ghost predicate Lasting(s: Pool, r: Pool, g: FileId) {
    NoNewForms(s, r, g) && StillSame(s, r, g)
  }

  lemma LastingTransitive(s: Pool, q: Pool, r: Pool, g: FileId)
    requires Lasting(s, q, g) && Lasting(q, r, g)
    ensures Lasting(s, r, g)
  {
    hide IsVersion, Pool.View, Still, Calm;
  }

  lemma HarmlessLasting(s: Pool, held: Option<Key>, r: Pool, holds: Option<Key>, g: FileId, marked: bool)
    requires Harmless(s, held, r, holds, g, marked) && s.Known(g)
    ensures Lasting(s, r, g)
  {
    hide NoNewForms, StillSame, Undisturbed;
    HarmlessForms(s, held, r, holds, g, marked);
  }

  lemma EverywhereKept(s: Pool, r: Pool, f: FileId)
    requires NoNewForms(s, r, f)
    ensures forall rid | Everywhere(s, f, rid) :: Everywhere(r, f, rid)
  {
    hide IsVersion, PageState.WellFormed, SameLinks;
    SameLinksUsed(s.disk[s.Home(f)], r.disk[r.Home(f)]);
  }

  // Where every form of the page has the record, the form in the frame does.
  lemma PassedOnPage(s: Pool, f: FileId, p: PageId, frame: FrameId, i: SlotId, slot: SlotId)
    requires s.Consistent() && Placed(s, f, p, Some(frame)) && IsNextSlotIn(s.frames, frame, i, slot)
    ensures slot != 0 ==> NoneBetween(s, f, RecordId(p, i), RecordId(p, slot))
    ensures slot == 0 ==> forall rid | Everywhere(s, f, rid) && Before(RecordId(p, i), rid) :: rid.pageNumber > p
  {
    hide PageState.WellFormed, File.UsedPages, Pool.View, Pool.Pins, Pool.Consistent, Sound, IsVersion, InOrder;
    UsedOnDisk(s, f, p, frame);
    SameNextSlot(s.frames[frame], i, slot);
    ViewIsVersion(s, Key(f, p));
  }

  // Page n is the next one in use after page p.
  lemma PassedToPage(s: Pool, f: FileId, p: PageId, frame: FrameId, i: SlotId, n: PageId)
    requires s.Consistent() && Placed(s, f, p, Some(frame)) && IsNextSlotIn(s.frames, frame, i, 0)
    requires IsNext(s.disk[s.Home(f)].UsedPages(), p, n)
    ensures if n == 0 then NoneAfter(s, f, RecordId(p, i)) else PassedTo(s, f, RecordId(p, i), RecordId(n, 0))
  {
    hide PageState.WellFormed, File.UsedPages, Pool.View, Pool.Pins, Pool.Consistent, Sound, IsVersion, InOrder,
         IsNextSlotIn;
    PassedOnPage(s, f, p, frame, i, 0);
    SlotsFromOne(s, f);
  }

  lemma PassedToFirst(s: Pool, f: FileId, n: PageId)
    requires s.Consistent() && s.Known(f) && IsNext(s.disk[s.Home(f)].UsedPages(), 0, n)
    ensures if n == 0 then NoneAfter(s, f, RecordId(0, 0)) else PassedTo(s, f, RecordId(0, 0), RecordId(n, 0))
  {
    hide PageState.WellFormed, File.UsedPages, IsVersion, Pool.Consistent;
    SlotsFromOne(s, f);
  }

  // A scan that has passed everything up to b goes on from there.
  lemma PassOn(s: Pool, q: Pool, f: FileId, a: RecordId, b: RecordId, c: RecordId)
    requires NoNewForms(s, q, f) && PassedTo(s, f, a, b)
    ensures PassedTo(q, f, b, c) ==> PassedTo(s, f, a, c)
    ensures NoneBetween(q, f, b, c) ==> NoneBetween(s, f, a, c)
    ensures NoneAfter(q, f, b) ==> NoneAfter(s, f, a)
  {
    hide Everywhere, NoNewForms;
    EverywhereKept(s, q, f);
  }

  lemma SlotsFromOne(s: Pool, f: FileId)
    requires s.Consistent()
    ensures forall rid | Everywhere(s, f, rid) :: rid.pageNumber >= 1 && rid.slotNumber >= 1
  {
    hide File.UsedPages, Pool.View, PageState.WellFormed;
    forall rid | Everywhere(s, f, rid)
      ensures rid.pageNumber >= 1 && rid.slotNumber >= 1
    {
      var key := Key(f, rid.pageNumber);
      UsedPagesExist(s.disk[s.Home(f)]);
      assert IsVersion(s, key, s.DiskFace(key));
    }
  }

  // ----- leaving and entering a page -----

  lemma LeaveEffect(s: Pool, key: Key, dirty: bool)
    requires s.Consistent() && s.Pins(key) > 0 && key.file in s.aliases && s.Known(key.file)
    ensures var r := BufferPool.UnPinPage(s, key, dirty);
            && r.pool.Consistent() && r.status == PoolOk && r.pool.disk == s.disk && r.pool.aliases == s.aliases
            && Harmless(s, Some(key), r.pool, None, key.file, dirty)
  {
    hide Pool.View, Pool.Pins, Pool.Consistent, Pool.Coherent, Pool.OthersRead, BufferPool.UnPinPage, SameLists, Still,
         NoNewVersions, PinnedUntouched;
    UnPinPageKeeps(s, key, dirty);
    UnPinPageDiskKept(s, key, dirty);
    LeaveUnseen(s, key, dirty);
    LeaveStill(s, key, dirty);
    CachedIsOnDisk(s, key);
  }

  lemma LeaveUnseen(s: Pool, key: Key, dirty: bool)
    requires s.Consistent() && key.file in s.aliases
    ensures !dirty ==> Unseen(s, BufferPool.UnPinPage(s, key, dirty).pool)
  {
    hide Pool.View, Pool.Pins, Pool.Coherent, Pool.OthersRead, BufferPool.UnPinPage;
    if s.Inv() {
      UnPinPageCorrect(s, key, dirty);
    }
  }

  lemma LeaveStill(s: Pool, key: Key, dirty: bool)
    requires s.Consistent() && key in s.table && s.Known(key.file)
    ensures StillSame(s, BufferPool.UnPinPage(s, key, dirty).pool, key.file)
  {
    hide Pool.View, Pool.Pins, Shown, File.WellFormed, File.UsedPages, Calm, DiskKept, PinnedUntouched;
    var r := BufferPool.UnPinPage(s, key, dirty).pool;
    if Still(s, key.file) {
      UnPinPageKeeps(s, key, dirty);
      UnPinPageDiskKept(s, key, dirty);
      CachedIsOnDisk(s, key);
      assert s.Caches(s.table[key], key);
      forall i | 0 <= i < |r.descs| && r.descs[i].valid && r.descs[i].file == key.file
        ensures i < |r.frames| && r.Clean(i)
      {
        assert s.Clean(i);
      }
      StillKept(s, r, key.file);
    }
  }

  lemma EnterEffect(s: Pool, key: Key)
    requires s.Consistent() && s.OnDisk(key) && Placed(s, key.file, key.page, None)
    ensures var r := BufferPool.ReadPage(s, key);
            && r.pool.Consistent() && r.pool.aliases == s.aliases && r.pool.Known(key.file)
            && Harmless(s, None, r.pool, if r.status == PoolOk then Some(key) else None, key.file, false)
            && (r.status == PoolOk || r.status == BufferExceeded)
            && (r.status == BufferExceeded <==> AllPinned(s))
            && Placed(r.pool, key.file, key.page, if r.status == PoolOk then Some(r.frame) else None)
  {
    hide Pool.View, Pool.Consistent, Pool.Coherent, Pool.OthersRead, BufferPool.ReadPage, SameLists, Still,
         NoNewVersions, PinnedUntouched, AllPinned, Sound, InOrder, File.UsedPages;
    ReadPageKeeps(s, key);
    ReadPageDiskKept(s, key);
    UsedPageOnDisk(s, key);
    EnterUnseen(s, key);
    EnterStill(s, key);
    var r := BufferPool.ReadPage(s, key).pool;
    SoundKept(s, r, key.file);
    SoundInOrder(r, key.file);
    PinnedCached(s);
    PrivateKept(s, None, r, if BufferPool.ReadPage(s, key).status == PoolOk then Some(key) else None, key.file, false);
    AllPinnedCached(s, key);
  }

  lemma AllPinnedCached(s: Pool, key: Key)
    requires s.Consistent()
    ensures AllPinned(s) && key in s.table ==> s.Pins(key) > 0
  {
    CachedIsOnDisk(s, key);
  }

  // The frame that a scan leaves can be taken.
  lemma LeftFrameFree(s: Pool, key: Key, dirty: bool)
    requires s.Consistent() && s.Pins(key) == 1
    ensures !AllPinned(BufferPool.UnPinPage(s, key, dirty).pool)
  {
    hide File.WellFormed, File.UsedPages;
    CachedIsOnDisk(s, key);
    var r := BufferPool.UnPinPage(s, key, dirty).pool;
    assert r.descs[s.table[key]].pinCnt == 0;
  }

  lemma PinnedCached(s: Pool)
    ensures forall key | s.Pins(key) > 0 :: key in s.table
  {
  }

  lemma EnterUnseen(s: Pool, key: Key)
    requires s.Consistent() && s.Known(key.file)
    ensures Unseen(s, BufferPool.ReadPage(s, key).pool)
  {
    hide Pool.View, Pool.Coherent, Pool.OthersRead, BufferPool.ReadPage, File.WellFormed;
    if s.Inv() {
      ReadPageCorrect(s, key);
    }
  }

  lemma EnterStill(s: Pool, key: Key)
    requires s.Consistent() && s.OnDisk(key)
    ensures StillSame(s, BufferPool.ReadPage(s, key).pool, key.file)
  {
    hide Pool.View, Pool.Pins, Shown, File.WellFormed, File.UsedPages, DiskKept, PinnedUntouched,
         AllPinned, BufferPool.ReadPage, Calm;
    var r := BufferPool.ReadPage(s, key).pool;
    if Still(s, key.file) {
      ReadPageKeeps(s, key);
      ReadPageDiskKept(s, key);
      ReadOwnFrames(s, key);
      StillKept(s, r, key.file);
    }
  }
}
