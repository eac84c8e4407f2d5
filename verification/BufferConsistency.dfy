// What holds of the buffer pool whatever clients do with their pages, even if they unpin changes as clean:
// table and frames name each other, pinned pages stay, and the lists on disk are not disturbed.
module BufferConsistency {
  import opened Types
  import opened SlottedPage
  import opened Files
  import opened HashTable
  import opened Clock
  import opened BufferPool

  // The lists of file f are the same on both disks.
  ghost predicate SameLists(a: Disk, b: Disk, f: FileId) {
    f in a ==> f in b && SameLinks(a[f], b[f])
  }

  ghost predicate AllPinned(s: Pool) {
    forall i | 0 <= i < |s.descs| :: s.descs[i].valid && s.descs[i].pinCnt > 0
  }

  // No page that is pinned leaves its frame.
  ghost predicate PinnedStay(s: Pool, r: Pool) {
    forall key | s.Pins(key) > 0 :: key in r.table && key in s.table && r.table[key] == s.table[key]
  }

  // A cached page is where it was, with the same bytes, pins and dirty flag.
  ghost predicate Untouched(s: Pool, r: Pool, key: Key) {
    && key in s.table && key in r.table && r.table[key] == s.table[key]
    && var i := s.table[key];
       && i < |s.descs| == |r.descs| && i < |s.frames| == |r.frames|
       && r.frames[i] == s.frames[i]
       && r.descs[i].pinCnt == s.descs[i].pinCnt && r.descs[i].dirty == s.descs[i].dirty
  }

  // Nothing happens to pinned pages other than the given one.
  ghost predicate PinnedUntouched(s: Pool, r: Pool, but: Option<Key>) {
    forall key | s.Pins(key) > 0 && but != Some(key) :: Untouched(s, r, key)
  }

  // What every operation keeps that neither allocates nor disposes of a page.
  ghost predicate Kept(s: Pool, r: Pool) {
    && r.Consistent() && r.aliases == s.aliases
    && r.disk.Keys == s.disk.Keys && |r.descs| == |s.descs|
    && (forall f | f in s.disk :: SameLists(s.disk, r.disk, f))
    && (forall key :: r.OnDisk(key) <==> s.OnDisk(key))
    && (forall f :: r.IsBlob(f) == s.IsBlob(f))
    && PinnedStay(s, r)
  }

  // ----- facts -----

  lemma CachedIsOnDisk(s: Pool, key: Key)
    requires s.Consistent()
    ensures key in s.table ==> s.OnDisk(key) && s.table[key] < |s.descs|
    ensures s.OnDisk(key) <==> s.View(key).Some?
    ensures s.Pins(key) > 0 ==> key in s.table
  {
    if key in s.table {
      assert s.Caches(s.table[key], key);
      assert s.FrameConsistent(s.table[key]);
    }
  }

  lemma DiskPageNumber(s: Pool, key: Key)
    requires s.Consistent() && s.OnDisk(key)
    ensures s.Belongs(key, s.DiskPage(key)) && key.page != 0 && s.Home(key.file) != 0 && key.file != 0
  {
    hide File.WellFormed, File.UsedPages;
    UsedPagesExist(s.disk[s.Home(key.file)]);
  }

  lemma ReadFromDisk(s: Pool, key: Key)
    requires s.Consistent() && s.Known(key.file)
    ensures ReadFilePage(s.disk[s.Home(key.file)], key.page) == if s.OnDisk(key) then Some(s.DiskPage(key)) else None
    ensures s.OnDisk(key) <==> s.View(key).Some?
  {
    hide File.WellFormed, File.UsedPages;
    ReadIsUsed(s.disk[s.Home(key.file)], key.page);
  }

  lemma NothingTouched(s: Pool)
    requires s.Consistent()
    ensures Kept(s, s) && PinnedUntouched(s, s, None)
  {
    forall key | s.Pins(key) > 0
      ensures Untouched(s, s, key)
    {
      CachedIsOnDisk(s, key);
    }
  }

  // ----- writing back -----

  lemma WriteDiskEffect(s: Pool, i: FrameId)
    requires s.Consistent() && i < |s.descs| && s.descs[i].valid
    ensures var key := Key(s.descs[i].file, s.descs[i].page);
            && key in s.table && s.table[key] == i && s.OnDisk(key)
            && var r := s.(disk := WriteDisk(s.disk, s.Spot(key), s.frames[i]));
            && r.disk.Keys == s.disk.Keys
            && (forall f :: r.IsBlob(f) == s.IsBlob(f))
            && (forall other :: r.OnDisk(other) <==> s.OnDisk(other))
            && (forall other | s.OnDisk(other) && s.Spot(other) != s.Spot(key) ::
                  r.DiskPage(other) == s.DiskPage(other))
            && (forall other | s.Spot(other) == s.Spot(key) ::
                  s.OnDisk(other) && r.DiskFace(other) == s.FrameFace(i))
            && (forall f | f in s.disk :: SameLists(s.disk, r.disk, f))
  {
    hide File.WellFormed;
    assert s.FrameConsistent(i);
    var d := s.descs[i];
    WriteKeepsLists(s.disk[s.Home(d.file)], d.page, s.frames[i]);
  }

  lemma EvictDisk(s: Pool, i: FrameId)
    requires s.Consistent() && i < |s.descs|
    ensures var r, key := Evict(s, i), Key(s.descs[i].file, s.descs[i].page);
            && (s.descs[i].valid ==> key in s.table && s.table[key] == i && s.OnDisk(key))
            && (s.descs[i].dirty ==> s.descs[i].valid)
            && r.disk.Keys == s.disk.Keys && r.aliases == s.aliases
            && (forall f :: r.IsBlob(f) == s.IsBlob(f))
            && (forall other :: r.OnDisk(other) <==> s.OnDisk(other))
            && (forall other | s.OnDisk(other) && (s.descs[i].dirty ==> s.Spot(other) != s.Spot(key)) ::
                  r.DiskPage(other) == s.DiskPage(other))
            && (s.descs[i].dirty ==> forall other | s.Spot(other) == s.Spot(key) ::
                  s.OnDisk(other) && r.DiskFace(other) == s.FrameFace(i))
            && (forall f | f in s.disk :: SameLists(s.disk, r.disk, f))
            && r.frames == s.frames && r.descs == s.descs[i := CLEARED]
            && r.table == if s.descs[i].valid then s.table - {key} else s.table
  {
    hide File.WellFormed, File.UsedPages, WriteDisk;
    assert s.FrameConsistent(i);
    if s.descs[i].dirty {
      WriteDiskEffect(s, i);
    }
  }

  // Taking an unpinned frame touches no pinned page.
  lemma EvictKeeps(s: Pool, i: FrameId)
    requires s.Consistent() && i < |s.descs| && s.descs[i].pinCnt == 0
    ensures var r := Evict(s, i);
            && Kept(s, r) && PinnedUntouched(s, r, None)
            && (forall key :: r.Pins(key) == s.Pins(key))
            && (forall key | key in r.table :: key in s.table)
  {
    hide File.WellFormed, File.UsedPages, Evict, Shown, SameLists;
    EvictConsistent(s, i);
    EvictDisk(s, i);
    var r := Evict(s, i);
    forall key | key in s.table
      ensures s.table[key] == i ==> s.descs[i].valid && key == Key(s.descs[i].file, s.descs[i].page)
      ensures s.OnDisk(key) && s.table[key] < |s.descs|
    {
      assert s.Caches(s.table[key], key);
      CachedIsOnDisk(s, key);
    }
  }

  // ----- taking a frame -----

  lemma SweptKeeps(s: Pool)
    requires s.Consistent()
    ensures var (r, victim) := Swept(s);
            && Kept(s, r) && PinnedUntouched(s, r, None)
            && r == s.(descs := r.descs, hand := r.hand)
            && (forall i | 0 <= i < |s.descs| :: r.descs[i] == s.descs[i] || r.descs[i] == s.descs[i].(refbit := false))
            && (forall key :: r.Pins(key) == s.Pins(key))
            && (victim.Some? ==> victim.value < |s.descs| && s.descs[victim.value].Evictable())
            && (victim.None? <==> AllPinned(s)) && (AllPinned(s) <==> AllPinned(r))
  {
    hide File.WellFormed, File.UsedPages, Choose, Shown, Pool.Consistent;
    Shape(s);
    SweptConsistent(s);
    SweepKeeps(s.descs, s.hand);
    NoVictimIffAllPinned(s.descs, s.hand);
    if Swept(s).1.Some? {
      VictimIsFirst(s.descs, s.hand);
    }
  }

  lemma Shape(s: Pool)
    requires s.Consistent()
    ensures |s.frames| == |s.descs| && (s.descs != [] ==> s.hand < |s.descs|)
    ensures forall key | key in s.table :: s.OnDisk(key) && s.table[key] < |s.descs|
    ensures forall f | f in s.disk :: SameLists(s.disk, s.disk, f)
  {
    hide File.WellFormed, File.UsedPages, Shown;
    forall key | key in s.table
      ensures s.OnDisk(key) && s.table[key] < |s.descs|
    {
      CachedIsOnDisk(s, key);
    }
  }

  // Taking a frame for a new page, whether it succeeds or not, keeps the lists on disk, and touches no
  // pinned page.
  lemma AllocBufKeeps(s: Pool)
    requires s.Consistent()
    ensures var (r, victim) := AllocBuf(s);
            && Kept(s, r) && PinnedUntouched(s, r, None)
            && (forall key :: r.Pins(key) == s.Pins(key))
            && (forall key | key in r.table :: key in s.table)
            && (victim.Some? ==> victim.value < |r.descs| && r.descs[victim.value] == CLEARED)
            && (victim.None? <==> AllPinned(s)) && (victim.None? ==> AllPinned(r))
  {
    hide File.WellFormed, File.UsedPages, Choose, Shown, Evict, Swept, AllPinned, Kept, PinnedUntouched,
         Pool.Pins;
    AllocBufConsistent(s);
    SweptConsistent(s);
    SweptKeeps(s);
    var (swept, victim) := Swept(s);
    if victim.Some? {
      VictimUnpinned(swept, victim.value);
      EvictKeeps(swept, victim.value);
      KeptTransitive(s, swept, Evict(swept, victim.value));
    }
  }

  lemma VictimUnpinned(s: Pool, i: FrameId)
    requires s.Consistent() && i < |s.descs| && s.descs[i].Evictable()
    ensures s.descs[i].pinCnt == 0
  {
    assert s.FrameConsistent(i);
  }

  lemma KeptTransitive(s: Pool, q: Pool, r: Pool)
    requires Kept(s, q) && Kept(q, r) && PinnedUntouched(s, q, None) && PinnedUntouched(q, r, None)
    requires forall key :: q.Pins(key) == s.Pins(key)
    ensures Kept(s, r) && PinnedUntouched(s, r, None)
  {
    hide Pool.Pins, Pool.Consistent, Shown;
  }

  // ----- reading and unpinning -----

  lemma LoadKeeps(s: Pool, i: FrameId, key: Key, page: PageState)
    requires s.Consistent() && i < |s.descs| && s.descs[i] == CLEARED && key !in s.table && key.file != 0
    requires s.OnDisk(key) && s.Belongs(key, page)
    ensures var r := Load(s, i, key, page);
            && Kept(s, r) && PinnedUntouched(s, r, None)
            && (forall other :: r.Pins(other) == if other == key then 1 else s.Pins(other))
            && (forall other | other in s.table :: other in r.table && r.table[other] == s.table[other] != i)
  {
    hide File.WellFormed, File.UsedPages, Shown, Pool.FrameConsistent, Pool.Consistent;
    LoadConsistent(s, i, key, page);
    Shape(s);
    OthersElsewhere(s, i);
  }

  // No page is cached in a cleared frame.
  lemma OthersElsewhere(s: Pool, i: FrameId)
    requires s.Consistent() && i < |s.descs| && s.descs[i] == CLEARED
    ensures forall other | other in s.table :: s.table[other] != i
  {
    forall other | other in s.table
      ensures s.table[other] != i
    {
      assert s.Caches(s.table[other], other);
    }
  }

  lemma LoadConsistent(s: Pool, i: FrameId, key: Key, page: PageState)
    requires s.Consistent() && i < |s.descs| && s.descs[i] == CLEARED && key !in s.table
    requires s.OnDisk(key) && s.Belongs(key, page)
    ensures Load(s, i, key, page).Consistent()
  {
    hide File.WellFormed, File.UsedPages, Shown, Pool.FrameConsistent;
    var r := Load(s, i, key, page);
    OthersElsewhere(s, i);
    forall j | 0 <= j < |r.descs|
      ensures r.FrameConsistent(j)
    {
      LoadedFrame(s, i, key, page, j);
    }
  }

  lemma LoadedFrame(s: Pool, i: FrameId, key: Key, page: PageState, j: FrameId)
    requires s.Consistent() && i < |s.descs| && s.descs[i] == CLEARED && key !in s.table && j < |s.descs|
    requires s.OnDisk(key) && s.Belongs(key, page)
    ensures Load(s, i, key, page).FrameConsistent(j)
  {
    hide File.WellFormed, File.UsedPages, Shown;
    assert s.FrameConsistent(j);
  }

  // Changing the pin count, dirty flag or reference bit of a cached page.
  lemma UpdateKeeps(s: Pool, key: Key, e: BufDesc)
    requires s.Consistent() && key in s.table && s.table[key] < |s.descs|
    requires var d := s.descs[s.table[key]]; e == d.(refbit := e.refbit, pinCnt := e.pinCnt, dirty := e.dirty)
    ensures var r := s.(descs := s.descs[s.table[key] := e]);
            && Kept(s, r) && PinnedUntouched(s, r, Some(key))
            && (forall other :: r.Pins(other) == if other == key then e.pinCnt else s.Pins(other))
  {
    hide File.WellFormed, File.UsedPages, Shown;
    var i := s.table[key];
    var r := s.(descs := s.descs[i := e]);
    assert s.Caches(i, key);
    forall j | 0 <= j < |r.descs|
      ensures r.FrameConsistent(j)
    {
      assert s.FrameConsistent(j);
    }
    forall other | other in s.table
      ensures s.table[other] == i ==> other == key
      ensures s.OnDisk(other) && s.table[other] < |s.descs|
    {
      assert s.Caches(s.table[other], other);
      CachedIsOnDisk(s, other);
    }
  }

  // Reading pins the page, or fails for lack of a frame or of the page; nothing changes for anybody else.
  lemma ReadPageKeeps(s: Pool, key: Key)
    requires s.Consistent() && s.Known(key.file)
    ensures var r := ReadPage(s, key);
            && Kept(s, r.pool) && PinnedUntouched(s, r.pool, Some(key))
            && (r.status == BufferExceeded <==> key !in s.table && AllPinned(s))
            && (r.status == BufferExceeded ==> AllPinned(r.pool))
            && (r.status == InvalidPageNumber <==> key !in s.table && !AllPinned(s) && !s.OnDisk(key))
            && (r.status == PoolOk || r.status == BufferExceeded || r.status == InvalidPageNumber)
            && (r.status == PoolOk ==> key in r.pool.table && r.pool.table[key] == r.frame < |r.pool.frames|)
            && (forall other ::
                  r.pool.Pins(other) == s.Pins(other) + if r.status == PoolOk && other == key then 1 else 0)
  {
    hide File.WellFormed, File.UsedPages, Shown, AllocBuf, AllPinned, PinnedUntouched, Untouched;
    CachedIsOnDisk(s, key);
    if key in s.table {
      var d := s.descs[s.table[key]];
      UpdateKeeps(s, key, d.(refbit := true, pinCnt := d.pinCnt + 1));
    } else {
      AllocBufConsistent(s);
      AllocBufKeeps(s);
      var (q, victim) := AllocBuf(s);
      AlsoUntouched(s, q, key);
      ReadFromDisk(q, key);
      if victim.Some? && s.OnDisk(key) {
        DiskPageNumber(q, key);
        LoadKeeps(q, victim.value, key, q.DiskPage(key));
        KeptTransitive(s, q, ReadPage(s, key).pool);
        AlsoUntouched(s, ReadPage(s, key).pool, key);
      }
    }
  }

  lemma AlsoUntouched(s: Pool, r: Pool, key: Key)
    requires PinnedUntouched(s, r, None)
    ensures PinnedUntouched(s, r, Some(key))
  {
  }

  lemma UnPinPageKeeps(s: Pool, key: Key, dirty: bool)
    requires s.Consistent()
    ensures var r := UnPinPage(s, key, dirty);
            && Kept(s, r.pool) && PinnedUntouched(s, r.pool, Some(key))
            && r.pool.disk == s.disk && r.pool.table == s.table
            && (r.status == NotCached <==> key !in s.table)
            && (r.status == PageNotPinned <==> key in s.table && s.Pins(key) == 0)
            && (r.status == PoolOk <==> s.Pins(key) > 0)
            && (forall other ::
                  r.pool.Pins(other) == if r.status == PoolOk && other == key then s.Pins(key) - 1 else s.Pins(other))
  {
    hide File.WellFormed, File.UsedPages, Shown, Kept, PinnedUntouched;
    CachedIsOnDisk(s, key);
    if key in s.table {
      var i := s.table[key];
      UpdateKeeps(s, key, UnPinPage(s, key, dirty).pool.descs[i]);
    } else {
      NothingTouched(s);
      AlsoUntouched(s, s, key);
    }
  }

  // A client writing through the pointer to a page it has pinned.
  lemma WriteFrameKeeps(s: Pool, key: Key, page: PageState)
    requires s.Consistent() && s.Pins(key) > 0 && s.Belongs(key, page)
    ensures key in s.table && s.table[key] < |s.frames|
    ensures var r := WriteFrame(s, key, page);
            && Kept(s, r) && PinnedUntouched(s, r, Some(key)) && r.disk == s.disk && r.table == s.table
            && (forall other :: r.Pins(other) == s.Pins(other))
  {
    hide File.WellFormed, File.UsedPages, Shown;
    CachedIsOnDisk(s, key);
    var r, i := WriteFrame(s, key, page), s.table[key];
    assert s.Caches(i, key);
    forall j | 0 <= j < |r.descs|
      ensures r.FrameConsistent(j)
    {
      assert s.FrameConsistent(j);
    }
    forall other | other in s.table
      ensures s.table[other] == i ==> other == key
      ensures s.OnDisk(other) && s.table[other] < |s.descs|
    {
      assert s.Caches(s.table[other], other);
      CachedIsOnDisk(s, other);
    }
  }

  // ----- allocating and disposing of pages -----

  // No page at the given place on disk is cached, except under the given key.
  ghost predicate UncachedBut(s: Pool, spot: Key, but: Option<Key>) {
    forall key | key in s.table && s.Spot(key) == spot :: but == Some(key)
  }

  // The pool after a change of file f that leaves alone its pages other than p.
  lemma FileChanged(s: Pool, f: FileId, g: File, p: PageId)
    requires s.Consistent() && f in s.disk && g.WellFormed() && UncachedBut(s, Key(f, p), None)
    requires SameContents(s.disk[f], g, p) && g.UsedPages() - {p} <= s.disk[f].UsedPages()
    ensures var r := s.(disk := s.disk[f := g]);
            && r.Consistent()
            && (forall h :: r.IsBlob(h) == s.IsBlob(h))
            && (forall key | s.Spot(key) != Key(f, p) :: r.OnDisk(key) <==> s.OnDisk(key))
            && (forall key | s.Spot(key) != Key(f, p) && s.OnDisk(key) ::
                  r.DiskFace(key) == s.DiskFace(key))
            && PinnedUntouched(s, r, None)
            && (forall key :: r.Pins(key) == s.Pins(key))
  {
    hide File.WellFormed, File.UsedPages, Shown;
    var r := s.(disk := s.disk[f := g]);
    UsedPagesExist(s.disk[f]);
    UsedPagesExist(g);
    forall key | s.Spot(key) != Key(f, p)
      ensures r.OnDisk(key) <==> s.OnDisk(key)
      ensures s.OnDisk(key) ==> r.DiskFace(key) == s.DiskFace(key)
    {
      if s.Home(key.file) == f && key.page in g.UsedPages() {
        assert key.page in g.UsedPages() - {p};
      }
    }
    forall key | key in s.table
      ensures s.OnDisk(key) && s.table[key] < |s.descs|
    {
      CachedIsOnDisk(s, key);
    }
    forall j | 0 <= j < |s.descs|
      ensures r.FrameConsistent(j)
    {
      assert s.FrameConsistent(j);
    }
  }

  // What an allocation through object f makes of the pool: a page chosen by the file's lists alone.
  ghost predicate AllocatedIn(s: Pool, f: FileId, r: PageResult) {
    && s.Known(f) && s.disk[s.Home(f)].WellFormed()
    && var key, home := Key(f, r.page), s.Home(f);
       && r.page == AllocatedFile(s.disk[home]).number
       && home in r.pool.disk && SameLinks(AllocatedFile(s.disk[home]).file, r.pool.disk[home])
       && !s.OnDisk(key) && key in r.pool.table && r.pool.table[key] == r.frame
       && (forall other :: r.pool.OnDisk(other) <==> s.OnDisk(other) || s.Spot(other) == s.Spot(key))
  }

  // The pool with the new page on disk and not yet cached.
  lemma GrownPool(q: Pool, f: FileId)
    requires q.Consistent() && q.Known(f) && MayAllocate(q.disk[q.Home(f)])
    ensures q.disk[q.Home(f)].WellFormed()
    ensures var a := AllocatedFile(q.disk[q.Home(f)]);
            var grown, key := q.(disk := q.disk[q.Home(f) := a.file]), Key(f, a.number);
            && grown.Consistent() && grown.OnDisk(key) && !q.OnDisk(key) && key !in q.table && f != 0
            && (forall g :: grown.IsBlob(g) == q.IsBlob(g)) && grown.Belongs(key, a.page)
            && (forall other :: grown.OnDisk(other) <==> q.OnDisk(other) || q.Spot(other) == q.Spot(key))
            && (forall other | q.OnDisk(other) :: grown.DiskFace(other) == q.DiskFace(other))
            && PinnedUntouched(q, grown, None)
            && (forall other :: grown.Pins(other) == q.Pins(other))
  {
    hide File.WellFormed, AllocatedFile, Shown;
    var home := q.Home(f);
    var a := AllocatedFile(q.disk[home]);
    AllocateWellFormedIff(q.disk[home]);
    NewPageUncached(q, f, a.number);
    FileChanged(q, home, a.file, a.number);
  }

  lemma NewPageUncached(s: Pool, f: FileId, p: PageId)
    requires s.Consistent() && s.Known(f) && p !in s.disk[s.Home(f)].UsedPages()
    ensures !s.OnDisk(Key(f, p)) && Key(f, p) !in s.table && UncachedBut(s, Key(s.Home(f), p), None) && f != 0
  {
    hide File.WellFormed, File.UsedPages;
    forall key | key in s.table
      ensures s.OnDisk(key)
    {
      CachedIsOnDisk(s, key);
    }
  }

  // A new page appears, pinned once, or there is no frame for it. The page and the lists afterwards are those
  // of the file alone, even when making room for it has just written back a page of the same file.
  lemma AllocPageKeeps(s: Pool, f: FileId)
    requires s.Consistent() && s.Known(f) && MayAllocate(s.disk[s.Home(f)])
    ensures var r := AllocPage(s, f);
            && r.pool.Consistent() && r.pool.disk.Keys == s.disk.Keys && |r.pool.descs| == |s.descs|
            && r.pool.aliases == s.aliases && (forall g :: r.pool.IsBlob(g) == s.IsBlob(g))
            && (r.status == BufferExceeded <==> AllPinned(s)) && (r.status == PoolOk || r.status == BufferExceeded)
            && (r.status == BufferExceeded ==> Kept(s, r.pool))
            && (r.status == PoolOk ==> AllocatedIn(s, f, r))
            && (forall g | g in s.disk && g != s.Home(f) :: SameLists(s.disk, r.pool.disk, g))
            && (forall other ::
                  r.pool.Pins(other) == if r.status == PoolOk && other == Key(f, r.page) then 1 else s.Pins(other))
            && PinnedStay(s, r.pool) && PinnedUntouched(s, r.pool, None)
  {
    hide File.WellFormed, File.UsedPages, AllocBuf, AllocatedFile, AllPinned, PinnedUntouched, Shown,
         Pool.OnDisk, Pool.Pins, Pool.Consistent, WithNewPage, AllocPage;
    AllocPageIs(s, f);
    AllocBufConsistent(s);
    AllocBufKeeps(s);
    var (q, victim) := AllocBuf(s);
    FileInOrder(s, s.Home(f));
    if victim.Some? {
      FileInOrder(q, s.Home(f));
      AllocatedLinks(s.disk[s.Home(f)], q.disk[q.Home(f)]);
      NewPageLoaded(q, f, victim.value);
      UntouchedTransitive(s, q, AllocPage(s, f).pool);
      NewPageLists(q, f, victim.value);
    }
  }

  lemma FileInOrder(s: Pool, f: FileId)
    requires s.Consistent() && f in s.disk
    ensures s.disk[f].WellFormed() && SameLinks(s.disk[f], s.disk[f])
  {
  }

  // The pool after the allocation, once it has a frame.
  function WithNewPage(q: Pool, f: FileId, i: FrameId): Pool
    requires q.Known(f) && q.disk[q.Home(f)].WellFormed() && i < |q.descs| == |q.frames|
  {
    var a := AllocatedFile(q.disk[q.Home(f)]);
    Load(q.(disk := q.disk[q.Home(f) := a.file]), i, Key(f, a.number), a.page)
  }

  lemma AllocPageIs(s: Pool, f: FileId)
    requires s.Consistent() && s.Known(f)
    ensures var (q, victim) := AllocBuf(s);
            && q.Known(f) && q.disk[q.Home(f)].WellFormed()
            && match victim
               case None => AllocPage(s, f) == PageResult(q, BufferExceeded, 0, 0)
               case Some(i) =>
                 && i < |q.descs| && |q.descs| == |q.frames|
                 && var number := AllocatedFile(q.disk[q.Home(f)]).number;
                    AllocPage(s, f) == PageResult(WithNewPage(q, f, i), PoolOk, number, i)
  {
    hide File.WellFormed, File.UsedPages, AllocBuf, AllocatedFile;
    AllocBufConsistent(s);
    var (q, victim) := AllocBuf(s);
    assert |q.descs| == |q.frames|;
  }

  lemma NewPageLoaded(q: Pool, f: FileId, i: FrameId)
    requires q.Consistent() && q.Known(f) && MayAllocate(q.disk[q.Home(f)]) && i < |q.descs|
    requires q.descs[i] == CLEARED
    ensures q.disk[q.Home(f)].WellFormed()
    ensures var r, key := WithNewPage(q, f, i), Key(f, AllocatedFile(q.disk[q.Home(f)]).number);
            && r.Consistent() && !q.OnDisk(key) && (forall g :: r.IsBlob(g) == q.IsBlob(g))
            && (forall other :: r.OnDisk(other) <==> q.OnDisk(other) || q.Spot(other) == q.Spot(key))
            && (forall other :: r.Pins(other) == if other == key then 1 else q.Pins(other))
            && PinnedStay(q, r) && PinnedUntouched(q, r, None)
  {
    hide File.WellFormed, File.UsedPages, AllocatedFile, Untouched, Shown, Pool.OnDisk;
    GrownPool(q, f);
    var a := AllocatedFile(q.disk[q.Home(f)]);
    var grown := q.(disk := q.disk[q.Home(f) := a.file]);
    LoadKeeps(grown, i, Key(f, a.number), a.page);
    UntouchedTransitive(q, grown, WithNewPage(q, f, i));
  }

  lemma NewPageLists(q: Pool, f: FileId, i: FrameId)
    requires q.Consistent() && q.Known(f) && i < |q.descs|
    ensures q.disk[q.Home(f)].WellFormed()
    ensures var r, a := WithNewPage(q, f, i), AllocatedFile(q.disk[q.Home(f)]);
            && r.disk == q.disk[q.Home(f) := a.file] && |r.descs| == |q.descs| && r.aliases == q.aliases
            && r.table == q.table[Key(f, a.number) := i]
  {
    hide AllocatedFile;
  }

  lemma UntouchedTransitive(s: Pool, q: Pool, r: Pool)
    requires PinnedUntouched(s, q, None) && PinnedUntouched(q, r, None) && forall key :: q.Pins(key) == s.Pins(key)
    ensures PinnedUntouched(s, r, None)
  {
    hide Pool.Pins;
  }

  // Without that guard the file breaks, and with it the pool.
  lemma AllocPageConsistentIff(s: Pool, f: FileId)
    requires s.Consistent() && s.Known(f)
    ensures var r := AllocPage(s, f);
            && (r.pool.Consistent() <==> r.status != PoolOk || MayAllocate(s.disk[s.Home(f)]))
            && var (q, victim) := AllocBuf(s);
               && q.Known(f) && |q.descs| == |q.frames| && q.disk[q.Home(f)].WellFormed()
               && (victim.Some? ==>
                     victim.value < |q.descs| && Key(f, AllocatedFile(q.disk[q.Home(f)]).number) !in q.table)
  {
    hide File.WellFormed, File.UsedPages, AllocBuf, AllocatedFile, AllPinned;
    AllocBufConsistent(s);
    AllocBufKeeps(s);
    var (q, victim) := AllocBuf(s);
    AllocateWellFormedIff(q.disk[q.Home(f)]);
    NewPageUncached(q, f, AllocatedFile(q.disk[q.Home(f)]).number);
    if MayAllocate(s.disk[s.Home(f)]) {
      AllocPageKeeps(s, f);
    } else if victim.Some? {
      assert AllocPage(s, f).pool.disk[q.Home(f)] == AllocatedFile(q.disk[q.Home(f)]).file;
    }
  }

  // Taking a page out of the pool without writing it.
  lemma DropKeeps(s: Pool, key: Key)
    requires s.Consistent() && key in s.table
    ensures s.table[key] < |s.descs|
    ensures var q := s.(descs := s.descs[s.table[key] := CLEARED], table := s.table - {key});
            && q.Consistent()
            && PinnedUntouched(s, q, Some(key))
            && (forall other | other != key :: q.Pins(other) == s.Pins(other))
  {
    hide File.WellFormed, File.UsedPages, Shown;
    var i := s.table[key];
    assert s.Caches(i, key);
    var q := s.(descs := s.descs[i := CLEARED], table := s.table - {key});
    forall j | 0 <= j < |s.descs|
      ensures q.FrameConsistent(j)
    {
      assert s.FrameConsistent(j);
    }
    forall other | other in s.table
      ensures s.table[other] == i ==> other == key
      ensures s.OnDisk(other) && s.table[other] < |s.descs|
    {
      assert s.Caches(s.table[other], other);
      CachedIsOnDisk(s, other);
    }
  }

  // A cached page disappears, whatever its pin count, from the pool and from the lists of its file. The pool
  // stays consistent if and only if the page was not cached under another object of the file as well.
  lemma DisposePageKeeps(s: Pool, key: Key)
    requires s.Consistent() && s.Known(key.file)
    ensures var r, home := DisposePage(s, key), s.Home(key.file);
            && (r.pool.Consistent() <==> r.status != PoolOk || UncachedBut(s, s.Spot(key), Some(key)))
            && r.pool.disk.Keys == s.disk.Keys && |r.pool.descs| == |s.descs| && r.pool.aliases == s.aliases
            && (r.status == PoolOk <==> key in s.table && !s.IsBlob(key.file))
            && (r.status == NotCached <==> key !in s.table)
            && (r.status == PoolOk || r.status == NotCached || r.status == InvalidPageNumber)
            && (r.status == NotCached ==> r.pool == s) && (r.status == InvalidPageNumber ==> r.pool.disk == s.disk)
            && (r.status == PoolOk ==>
                  && key !in r.pool.table && s.OnDisk(key)
                  && s.disk[home].WellFormed() && DeletedFile(s.disk[home], key.page).Some?
                  && r.pool.disk == s.disk[home := DeletedFile(s.disk[home], key.page).value])
            && (forall other :: r.pool.OnDisk(other) <==>
                  s.OnDisk(other) && (r.status == PoolOk ==> s.Spot(other) != s.Spot(key)))
            && (forall other :: r.pool.Pins(other) == if other == key then 0 else s.Pins(other))
            && PinnedUntouched(s, r.pool, Some(key))
  {
    hide File.WellFormed, File.UsedPages, Shown, DeletedFile, Pool.OnDisk, Pool.Consistent, UncachedBut,
         Untouched;
    CachedIsOnDisk(s, key);
    DisposedPages(s, key);
    DisposedPins(s, key);
    FileInOrder(s, s.Home(key.file));
    DeleteCorrect(s.disk[s.Home(key.file)], key.page);
    NotInTable(s, key);
    if key in s.table {
      DropKeeps(s, key);
      if s.IsBlob(key.file) {
      } else if UncachedBut(s, s.Spot(key), Some(key)) {
        DisposedConsistent(s, key);
      } else {
        TwinLeft(s, key);
      }
    }
  }

  lemma DisposedPins(s: Pool, key: Key)
    requires s.Consistent() && s.Known(key.file)
    ensures var r := DisposePage(s, key);
            && (forall other :: r.pool.Pins(other) == if other == key then 0 else s.Pins(other))
            && PinnedUntouched(s, r.pool, Some(key))
            && (key in s.table ==> s.OnDisk(key))
  {
    hide File.WellFormed, File.UsedPages, DeletedFile;
    CachedIsOnDisk(s, key);
    DeleteCorrect(s.disk[s.Home(key.file)], key.page);
    if key in s.table {
      DropKeeps(s, key);
    } else {
      NothingTouched(s);
    }
  }

  lemma NotInTable(s: Pool, key: Key)
    requires s.Consistent()
    ensures key !in s.table ==> s.Pins(key) == 0
  {
  }

  lemma DisposedConsistent(s: Pool, key: Key)
    requires s.Consistent() && s.Known(key.file) && key in s.table && !s.IsBlob(key.file)
    requires UncachedBut(s, s.Spot(key), Some(key))
    ensures DisposePage(s, key).pool.Consistent()
  {
    hide File.WellFormed, File.UsedPages, Shown, DeletedFile;
    CachedIsOnDisk(s, key);
    DropKeeps(s, key);
    DeleteCorrect(s.disk[s.Home(key.file)], key.page);
    var q := s.(descs := s.descs[s.table[key] := CLEARED], table := s.table - {key});
    FileChanged(q, s.Home(key.file), DeletedFile(q.disk[s.Home(key.file)], key.page).value, key.page);
  }

  lemma DisposedPages(s: Pool, key: Key)
    requires s.Consistent() && s.Known(key.file)
    ensures var r := DisposePage(s, key);
            forall other :: r.pool.OnDisk(other) <==>
              s.OnDisk(other) && (r.status == PoolOk ==> s.Spot(other) != s.Spot(key))
  {
    hide File.WellFormed, DeletedFile, File.UsedPages;
    CachedIsOnDisk(s, key);
    DeleteCorrect(s.disk[s.Home(key.file)], key.page);
    UsedPagesExist(s.disk[s.Home(key.file)]);
    if DeletedFile(s.disk[s.Home(key.file)], key.page).Some? {
      UsedPagesExist(DeletedFile(s.disk[s.Home(key.file)], key.page).value);
    }
  }

  lemma TwinLeft(s: Pool, key: Key)
    requires s.Consistent() && key in s.table && s.Known(key.file) && !s.IsBlob(key.file)
    requires !UncachedBut(s, s.Spot(key), Some(key))
    ensures !DisposePage(s, key).pool.Consistent()
  {
    hide File.WellFormed, DeletedFile, File.UsedPages;
    CachedIsOnDisk(s, key);
    DisposedPages(s, key);
    DeleteCorrect(s.disk[s.Home(key.file)], key.page);
    var other :| other in s.table && s.Spot(other) == s.Spot(key) && other != key;
    var r := DisposePage(s, key).pool;
    assert other in r.table && !r.OnDisk(other);
    if r.Consistent() {
      CachedIsOnDisk(r, other);
    }
  }

  // ----- flushing -----

  // What flushing frames of file f leaves alone.
  ghost predicate FlushKeeps(s: Pool, r: Pool, f: FileId) {
    && Kept(s, r) && PinnedUntouched(s, r, None)
    && (forall g | g in s.disk && g != s.Home(f) :: r.disk[g] == s.disk[g])
    && (forall j | 0 <= j < |s.descs| && s.descs[j].file != f :: r.descs[j] == s.descs[j])
    && (forall key :: r.Pins(key) == s.Pins(key))
  }

  lemma FlushKeepsTransitive(s: Pool, q: Pool, r: Pool, f: FileId)
    requires FlushKeeps(s, q, f) && FlushKeeps(q, r, f)
    ensures FlushKeeps(s, r, f)
  {
    hide Pool.Pins, PinnedUntouched, Pool.Consistent;
    KeptTransitive(s, q, r);
  }

  // Whether the sweep, from frame i on, meets a pinned frame of the file.
  ghost predicate MeetsPinned(s: Pool, f: FileId, i: nat) {
    exists j | i <= j < |s.descs| :: s.descs[j].file == f && s.descs[j].pinCnt > 0
  }

  lemma FlushOneKeeps(s: Pool, f: FileId, i: nat)
    requires s.Consistent() && i < |s.descs| && s.descs[i].valid && s.descs[i].file == f && s.descs[i].pinCnt == 0
    ensures var r := Evict(s, i);
            r.descs == s.descs[i := CLEARED] && FlushKeeps(s, r, f)
  {
    hide File.WellFormed, File.UsedPages, Shown, Kept, PinnedUntouched, WriteDisk, SameLists;
    EvictKeeps(s, i);
    EvictDisk(s, i);
    OtherFilesOnDisk(s, i);
  }

  lemma OtherFilesOnDisk(s: Pool, i: FrameId)
    requires s.Consistent() && i < |s.descs|
    ensures forall g | g in s.disk && g != s.Home(s.descs[i].file) ::
      g in Evict(s, i).disk && Evict(s, i).disk[g] == s.disk[g]
  {
    hide File.WellFormed, File.UsedPages;
    assert s.FrameConsistent(i);
  }

  // The sweep takes the frames of the file out of the pool, or stops on a pinned one; it never comes to the
  // bad-buffer case; what belongs to other files is as before.
  lemma {:induction false} FlushFromKeeps(s: Pool, f: FileId, i: nat)
    requires s.Consistent() && i <= |s.descs| && f != 0
    ensures var r := FlushFrom(s, f, i);
            && FlushKeeps(s, r.pool, f)
            && (forall j | 0 <= j < i :: r.pool.descs[j] == s.descs[j])
            && r.status == (if MeetsPinned(s, f, i) then PagePinned else PoolOk)
            && (r.status == PoolOk ==> forall j | i <= j < |s.descs| :: r.pool.descs[j].file != f)
    decreases |s.descs| - i
  {
    hide File.WellFormed, File.UsedPages, Shown, Evict, Kept, PinnedUntouched, Pool.Pins, Pool.OnDisk;
    if i < |s.descs| {
      assert s.FrameConsistent(i);
      var d := s.descs[i];
      if d.valid && d.file == f {
        if d.pinCnt == 0 {
          FlushOneKeeps(s, f, i);
          var q := Evict(s, i);
          NowConsistent(s, q);
          FlushFromKeeps(q, f, i + 1);
          NowConsistent(q, FlushFrom(q, f, i + 1).pool);
          FlushKeepsTransitive(s, q, FlushFrom(q, f, i + 1).pool, f);
          assert forall j | i < j < |s.descs| :: q.descs[j] == s.descs[j];
          assert MeetsPinned(q, f, i + 1) <==> MeetsPinned(s, f, i);
        } else {
          NothingTouched(s);
        }
      } else {
        FlushFromKeeps(s, f, i + 1);
        NowConsistent(s, FlushFrom(s, f, i + 1).pool);
        assert MeetsPinned(s, f, i + 1) <==> MeetsPinned(s, f, i);
      }
    } else {
      NothingTouched(s);
    }
  }

  lemma FileNotCached(s: Pool, f: FileId)
    requires s.Consistent() && forall j | 0 <= j < |s.descs| :: s.descs[j].file != f
    ensures forall key: Key | key in s.table :: key.file != f
  {
    forall key: Key | key in s.table
      ensures key.file != f
    {
      assert s.Caches(s.table[key], key);
    }
  }

  // A flush succeeds unless a page of the file is pinned; after it no page of the file is cached.
  lemma FlushFileKeeps(s: Pool, f: FileId)
    requires s.Consistent() && f != 0
    ensures var r := FlushFile(s, f);
            && FlushKeeps(s, r.pool, f)
            && r.status == (if exists page :: s.Pins(Key(f, page)) > 0 then PagePinned else PoolOk)
            && (r.status == PoolOk ==> forall key: Key | key.file == f :: key !in r.pool.table)
            && (r.status == PoolOk ==> forall j | 0 <= j < |r.pool.descs| :: r.pool.descs[j].file != f)
  {
    hide File.WellFormed, File.UsedPages, Shown, FlushFrom, Kept, PinnedUntouched;
    FlushFromKeeps(s, f, 0);
    var r := FlushFile(s, f);
    forall j | 0 <= j < |s.descs| && s.descs[j].file == f && s.descs[j].pinCnt > 0
      ensures s.Pins(Key(f, s.descs[j].page)) > 0
    {
      assert s.FrameConsistent(j);
    }
    forall page | s.Pins(Key(f, page)) > 0
      ensures MeetsPinned(s, f, 0)
    {
      assert s.Caches(s.table[Key(f, page)], Key(f, page));
    }
    if r.status == PoolOk {
      NowConsistent(s, r.pool);
      FileNotCached(r.pool, f);
    }
  }

  lemma NowConsistent(s: Pool, r: Pool)
    requires Kept(s, r)
    ensures r.Consistent() && |r.descs| == |s.descs|
  {
  }
}
