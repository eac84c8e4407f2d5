// The buffer pool is invisible: whatever it evicts, flushes or keeps, clients see the same pages, as long as
// they report what they change.
module BufferCorrectness {
  import opened Types
  import opened SlottedPage
  import opened Files
  import opened HashTable
  import opened Clock
  import opened BufferPool
  import opened BufferConsistency

  // Clients see the same pages. What they see is what the first File object of each file shows; other objects of
  // the same file only read, and have no part in it.
  ghost predicate SameView(s: Pool, r: Pool) {
    r.aliases == s.aliases && forall key: Key | key.file !in s.aliases :: r.View(key) == s.View(key)
  }

  // ----- taking a frame -----

  // Frame i could be dropped: what it holds is on disk or will be written there; or it belongs to another object,
  // and will not be written over something different that clients see.
  ghost predicate Droppable(s: Pool, i: FrameId)
    requires i < |s.descs| == |s.frames|
  {
    var d := s.descs[i];
    d.valid ==>
      if d.file !in s.aliases then d.dirty || s.Clean(i)
      else d.dirty ==> s.Clean(i) || s.Spot(Key(d.file, d.page)) in s.table
  }

  // Dropping a frame changes nothing that can be seen exactly under this condition.
  lemma EvictInvisible(s: Pool, i: FrameId)
    requires s.Consistent() && i < |s.descs|
    ensures SameView(s, Evict(s, i)) <==> Droppable(s, i)
  {
    hide File.WellFormed, File.UsedPages, Evict, Shown;
    EvictDisk(s, i);
    if Droppable(s, i) {
      forall other: Key | other.file !in s.aliases
        ensures Evict(s, i).View(other) == s.View(other)
      {
        CachedIsOnDisk(s, other);
        if other in s.table {
          assert s.Caches(s.table[other], other);
        }
      }
    } else {
      ChangeLost(s, i);
    }
  }

  lemma ChangeLost(s: Pool, i: FrameId)
    requires s.Consistent() && i < |s.descs| && !Droppable(s, i)
    ensures var spot := s.Spot(Key(s.descs[i].file, s.descs[i].page));
            spot.file !in s.aliases && Evict(s, i).View(spot) != s.View(spot)
  {
    hide File.WellFormed, File.UsedPages, Shown, Evict;
    assert s.FrameConsistent(i);
    EvictDisk(s, i);
  }

  lemma EvictCoherent(s: Pool, i: FrameId)
    requires s.Inv() && i < |s.descs|
    ensures Evict(s, i).Inv()
  {
    hide File.WellFormed, File.UsedPages, Evict, Shown;
    EvictDisk(s, i);
    EvictConsistent(s, i);
    var r := Evict(s, i);
    assert s.FrameConsistent(i);
    forall j | 0 <= j < |r.descs| && r.descs[j].valid && r.descs[j].file !in s.aliases && s.Clean(j)
      ensures r.Clean(j)
    {
      assert s.FrameConsistent(j);
    }
  }

  lemma SweptInvisible(s: Pool)
    requires s.Inv()
    ensures Swept(s).0.Inv() && SameView(s, Swept(s).0)
    ensures Swept(s).1.Some? ==> Droppable(Swept(s).0, Swept(s).1.value)
  {
    hide File.WellFormed, File.UsedPages, Choose, Shown;
    SweptConsistent(s);
    SweepKeeps(s.descs, s.hand);
    var r, victim := Swept(s).0, Swept(s).1;
    if victim.Some? {
      VictimIsFirst(s.descs, s.hand);
    }
    forall i | 0 <= i < |s.descs| && s.Clean(i) && s.descs[i].valid
      ensures r.Clean(i)
    {
    }
  }

  // Taking a frame for a new page, whether it succeeds or not, is invisible.
  lemma AllocBufInvisible(s: Pool)
    requires s.Inv()
    ensures AllocBuf(s).0.Inv() && SameView(s, AllocBuf(s).0)
  {
    hide File.WellFormed, File.UsedPages, Choose, Shown, Evict, Swept;
    AllocBufConsistent(s);
    SweptInvisible(s);
    SweptKeeps(s);
    var (swept, victim) := Swept(s);
    if victim.Some? {
      EvictInvisible(swept, victim.value);
      EvictCoherent(swept, victim.value);
    }
  }

  // ----- reading and unpinning -----

  lemma LoadedPool(s: Pool, i: FrameId, key: Key, page: PageState)
    requires s.Inv() && i < |s.descs| && s.descs[i] == CLEARED && key !in s.table && key.file != 0
    requires s.OnDisk(key) && s.Belongs(key, page) && s.Face(key, page) == s.DiskFace(key)
    ensures var r := Load(s, i, key, page); r.Inv() && SameView(s, r)
  {
    hide File.WellFormed, File.UsedPages, Shown;
    LoadKeeps(s, i, key, page);
    var r := Load(s, i, key, page);
    forall j | 0 <= j < |r.descs|
      ensures j != i && r.descs[j].valid && s.Clean(j) ==> r.Clean(j)
    {
      assert s.FrameConsistent(j);
    }
  }

  // Reading is invisible, and what is read is what the client would see without a pool; a page is refused as
  // invalid only if there is none to be seen.
  lemma ReadPageCorrect(s: Pool, key: Key)
    requires s.Inv() && s.Known(key.file)
    ensures var r := ReadPage(s, key);
            && r.pool.Inv() && SameView(s, r.pool)
            && (r.status == InvalidPageNumber ==> s.View(key) == None)
            && (r.status == PoolOk ==>
                  && r.frame < |r.pool.frames| && |r.pool.descs| == |r.pool.frames|
                  && r.pool.View(key) == Some(r.pool.FrameFace(r.frame))
                  && (key.file !in s.aliases ==> s.View(key) == r.pool.View(key)))
  {
    hide ReadPage, Pool.Consistent, Pool.Coherent, Pool.OthersRead, Pool.View, Pool.OnDisk;
    if key in s.table {
      HitCorrect(s, key);
    } else {
      MissCorrect(s, key);
    }
    ReadPageKeeps(s, key);
    ShownInFrame(ReadPage(s, key).pool, key);
  }

  lemma HitCorrect(s: Pool, key: Key)
    requires s.Inv() && s.Known(key.file) && key in s.table
    ensures var r := ReadPage(s, key); r.pool.Inv() && SameView(s, r.pool) && r.status == PoolOk
  {
    hide File.WellFormed, File.UsedPages, Shown, Pool.FrameConsistent, Pool.View;
    CachedIsOnDisk(s, key);
    assert s.Caches(s.table[key], key);
    var d := s.descs[s.table[key]];
    CachedUpdate(s, key, d.(refbit := true, pinCnt := d.pinCnt + 1));
  }

  lemma MissCorrect(s: Pool, key: Key)
    requires s.Inv() && s.Known(key.file) && key !in s.table
    ensures var r := ReadPage(s, key);
            && r.pool.Inv() && SameView(s, r.pool)
            && (r.status == InvalidPageNumber ==> s.View(key) == None)
  {
    hide File.WellFormed, File.UsedPages, Shown, AllocBuf, Pool.FrameConsistent, AllPinned, PinnedUntouched, PinnedStay;
    AllocBufConsistent(s);
    AllocBufKeeps(s);
    AllocBufInvisible(s);
    var (q, victim) := AllocBuf(s);
    ReadFromDisk(q, key);
    ReadFromDisk(s, key);
    if ReadPage(s, key).status == PoolOk {
      DiskPageNumber(q, key);
      LoadedPool(q, victim.value, key, q.DiskPage(key));
    }
  }

  lemma ShownInFrame(s: Pool, key: Key)
    requires s.Consistent()
    ensures |s.descs| == |s.frames|
    ensures key in s.table ==> s.table[key] < |s.frames| && s.View(key) == Some(s.FrameFace(s.table[key]))
  {
    hide File.WellFormed, File.UsedPages, Shown;
    CachedIsOnDisk(s, key);
    assert key in s.table ==> s.Caches(s.table[key], key);
  }

  // A page just read can be unpinned as clean: nobody has changed it, or somebody else still pins it.
  lemma ReadIsReported(s: Pool, key: Key)
    requires s.Inv() && s.OnDisk(key)
    ensures var r := ReadPage(s, key); r.pool.Consistent() && (r.status == PoolOk ==> Reported(r.pool, key, false))
  {
    hide File.UsedPages, File.WellFormed, Shown, AllocBuf, AllPinned, PinnedUntouched, SameLists,
         PinnedStay, Pool.Pins;
    ReadPageKeeps(s, key);
    CachedIsOnDisk(s, key);
    if key in s.table {
      assert s.Caches(s.table[key], key);
    } else {
      AllocBufConsistent(s);
      AllocBufKeeps(s);
      var q := AllocBuf(s).0;
      ReadFromDisk(q, key);
      DiskPageNumber(q, key);
    }
  }

  // Changing the pin count, dirty flag or reference bit of a cached page.
  lemma CachedUpdate(s: Pool, key: Key, e: BufDesc)
    requires s.Inv() && key in s.table && s.Caches(s.table[key], key)
    requires var d := s.descs[s.table[key]]; e == d.(refbit := e.refbit, pinCnt := e.pinCnt, dirty := e.dirty)
    requires if key.file in s.aliases then !e.dirty else e.dirty || e.pinCnt > 0 || s.Clean(s.table[key])
    ensures var r := s.(descs := s.descs[s.table[key] := e]); r.Inv() && SameView(s, r)
  {
    hide File.WellFormed, File.UsedPages, Shown;
    var i := s.table[key];
    var r := s.(descs := s.descs[i := e]);
    UpdateKeeps(s, key, e);
    forall j | 0 <= j < |r.descs|
      ensures s.Clean(j) ==> r.Clean(j)
    {
    }
  }

  // Unpinning a page is safe when it is reported dirty, already dirty, still pinned by others, or clean; and
  // a page under an object that only reads is not reported dirty.
  ghost predicate Reported(s: Pool, key: Key, dirty: bool)
    requires s.Consistent()
  {
    key in s.table ==>
      var d := s.descs[s.table[key]];
      if key.file in s.aliases then !dirty else dirty || d.dirty || d.pinCnt != 1 || s.Clean(s.table[key])
  }

  // Unpinning shows nothing at once; the page can be lost later exactly when its change was not reported.
  lemma UnPinPageCorrect(s: Pool, key: Key, dirty: bool)
    requires s.Inv()
    ensures var r := UnPinPage(s, key, dirty);
            SameView(s, r.pool) && (r.pool.Inv() <==> Reported(s, key, dirty))
  {
    hide File.WellFormed, File.UsedPages, Shown, Pool.FrameConsistent;
    UnPinPageKeeps(s, key, dirty);
    if key in s.table {
      assert s.Caches(s.table[key], key);
      var r := UnPinPage(s, key, dirty);
      forall j | 0 <= j < |s.descs|
        ensures s.Clean(j) <==> r.pool.Clean(j)
      {
        SameClean(s, r.pool, j);
      }
    }
  }

  lemma SameClean(s: Pool, r: Pool, j: FrameId)
    requires |s.frames| == |s.descs| == |r.descs| && r.frames == s.frames && r.disk == s.disk && r.aliases == s.aliases
    requires j < |s.descs| && r.descs[j].file == s.descs[j].file && r.descs[j].page == s.descs[j].page
    ensures s.Clean(j) <==> r.Clean(j)
  {
    hide File.UsedPages, Shown;
  }

  // ----- allocating and disposing of pages -----

  // The pool after a change of file f that leaves alone what clients see of its pages other than p.
  lemma DiskChanged(s: Pool, f: FileId, g: File, p: PageId)
    requires s.Inv() && f in s.disk && g.WellFormed() && UncachedBut(s, Key(f, p), None)
    requires SameContents(s.disk[f], g, p) && g.UsedPages() - {p} <= s.disk[f].UsedPages()
    ensures var r := s.(disk := s.disk[f := g]);
            && r.Inv()
            && (forall key | s.Spot(key) != Key(f, p) :: r.View(key) == s.View(key))
            && r.View(Key(f, p)) ==
                 (if p in g.UsedPages() && p in g.Pages() then Some(Shown(g.Blob?, g.Pages()[p])) else None)
  {
    hide File.WellFormed, File.UsedPages, Shown;
    FileChanged(s, f, g, p);
    var r := s.(disk := s.disk[f := g]);
    forall j | 0 <= j < |s.descs|
      ensures s.Clean(j) && s.descs[j].valid ==> r.Clean(j)
    {
      assert s.FrameConsistent(j);
    }
  }

  // The new page is empty; no other page changes for anybody.
  lemma AllocPageCorrect(s: Pool, f: FileId)
    requires s.Inv() && s.Known(f) && MayAllocate(s.disk[s.Home(f)])
    ensures var r := AllocPage(s, f);
            && r.pool.Inv() && r.pool.aliases == s.aliases
            && (r.status == BufferExceeded ==> SameView(s, r.pool))
            && (r.status == PoolOk ==>
                  var spot := s.Spot(Key(f, r.page));
                  && s.View(spot) == None && r.pool.View(spot) == Some(FreshPage(s.IsBlob(f), r.page))
                  && (forall other: Key | other.file !in s.aliases && other != spot ::
                        r.pool.View(other) == s.View(other)))
  {
    hide File.WellFormed, File.UsedPages, AllocBuf, AllocatedFile, Shown, Pool.View, WithNewPage,
         Pool.Consistent, Pool.Coherent, Pool.OthersRead, AllPinned, Pool.Pins, PinnedUntouched, AllocPage;
    AllocPageIs(s, f);
    AllocBufKeeps(s);
    AllocBufInvisible(s);
    var (q, victim) := AllocBuf(s);
    if victim.Some? {
      NewPageVisible(q, f, victim.value);
      NewPageLists(q, f, victim.value);
    }
  }

  lemma NewPageVisible(q: Pool, f: FileId, i: FrameId)
    requires q.Inv() && q.Known(f) && MayAllocate(q.disk[q.Home(f)]) && i < |q.descs| && q.descs[i] == CLEARED
    ensures q.disk[q.Home(f)].WellFormed()
    ensures var r, number := WithNewPage(q, f, i), AllocatedFile(q.disk[q.Home(f)]).number;
            var spot := q.Spot(Key(f, number));
            && r.Inv() && spot.file !in q.aliases
            && q.View(spot) == None && r.View(spot) == Some(FreshPage(q.IsBlob(f), number))
            && (forall other: Key | other.file !in q.aliases && other != spot :: r.View(other) == q.View(other))
  {
    hide File.WellFormed, File.UsedPages, AllocatedFile, Pool.Pins;
    var home := q.Home(f);
    var a := AllocatedFile(q.disk[home]);
    AllocateWellFormedIff(q.disk[home]);
    NewPageUncached(q, f, a.number);
    DiskChanged(q, home, a.file, a.number);
    GrownPool(q, f);
    var grown := q.(disk := q.disk[home := a.file]);
    LoadedPool(grown, i, Key(f, a.number), a.page);
    assert SameView(grown, WithNewPage(q, f, i));
  }

  // Taking a page out of the pool without writing it.
  lemma Dropped(s: Pool, key: Key)
    requires s.Inv() && key in s.table && s.table[key] < |s.descs|
    ensures var q := s.(descs := s.descs[s.table[key] := CLEARED], table := s.table - {key});
            q.Inv() && (forall other | other != key :: q.View(other) == s.View(other))
  {
    hide File.WellFormed, File.UsedPages, Shown;
    DropKeeps(s, key);
    var i := s.table[key];
    assert s.Caches(i, key);
    var q := s.(descs := s.descs[i := CLEARED], table := s.table - {key});
    forall j | 0 <= j < |s.descs|
      ensures j != i && s.descs[j].valid && s.Clean(j) ==> q.Clean(j)
    {
    }
  }

  // The page is gone for everybody if it was cached; no other page changes. A blob file refuses to delete it, but
  // what was changed on it and not written is lost.
  lemma DisposePageCorrect(s: Pool, key: Key)
    requires s.Inv() && s.Known(key.file) && UncachedBut(s, s.Spot(key), Some(key))
    ensures var r := DisposePage(s, key);
            && r.pool.Inv() && r.pool.aliases == s.aliases
            && (r.status == PoolOk ==> r.pool.View(key) == None)
            && (r.status == NotCached ==> SameView(s, r.pool))
            && (r.status == InvalidPageNumber ==> s.OnDisk(key) && r.pool.View(key) == Some(s.DiskFace(key)))
            && (forall other | s.Spot(other) != s.Spot(key) :: r.pool.View(other) == s.View(other))
  {
    hide File.WellFormed, File.UsedPages, Shown, DeletedFile;
    if key in s.table {
      CachedIsOnDisk(s, key);
      Dropped(s, key);
      DeleteCorrect(s.disk[s.Home(key.file)], key.page);
      var q := s.(descs := s.descs[s.table[key] := CLEARED], table := s.table - {key});
      if !s.IsBlob(key.file) {
        DiskChanged(q, s.Home(key.file), DeletedFile(q.disk[s.Home(key.file)], key.page).value, key.page);
      }
    }
  }

  // ----- flushing -----

  // The sweep of flushFile is invisible wherever it stops.
  lemma {:induction false} FlushFromCorrect(s: Pool, f: FileId, i: nat)
    requires s.Inv() && i <= |s.descs|
    ensures FlushFrom(s, f, i).pool.Inv() && SameView(s, FlushFrom(s, f, i).pool)
    decreases |s.descs| - i
  {
    hide Pool.Consistent, Pool.View, Evict;
    if i < |s.descs| {
      EvictCoherent(s, i);
      if s.descs[i].valid && s.descs[i].file == f && s.descs[i].pinCnt == 0 {
        EvictInvisible(s, i);
        EvictShape(s, i);
        FlushFromCorrect(Evict(s, i), f, i + 1);
      } else if !(s.descs[i].file == f) {
        FlushFromCorrect(s, f, i + 1);
      }
    }
  }

  lemma EvictShape(s: Pool, i: FrameId)
    requires s.Consistent() && i < |s.descs|
    ensures |Evict(s, i).descs| == |s.descs|
  {
  }

  // After a flush that succeeds the disk holds what clients saw of the file; if it stops, what clients see is
  // still the same.
  lemma FlushFileCorrect(s: Pool, f: FileId)
    requires s.Inv() && f != 0
    ensures var r := FlushFile(s, f);
            && r.pool.Inv() && SameView(s, r.pool)
            && (r.status == PoolOk && f !in s.aliases ==> forall key: Key | key.file == f && s.OnDisk(key) ::
                  r.pool.OnDisk(key) && s.View(key) == Some(r.pool.DiskFace(key)))
  {
    hide File.WellFormed, File.UsedPages, Shown, FlushFrom, FlushKeeps;
    FlushFromCorrect(s, f, 0);
    FlushFileKeeps(s, f);
    var r := FlushFile(s, f);
    if r.status == PoolOk && f !in s.aliases {
      forall key: Key | key.file == f && s.OnDisk(key)
        ensures r.pool.OnDisk(key) && s.View(key) == Some(r.pool.DiskFace(key))
      {
        assert f !in s.aliases ==> r.pool.View(key) == s.View(key);
      }
    }
  }

  // ----- clients writing to pages they have pinned -----

  lemma WriteFrameCorrect(s: Pool, key: Key, page: PageState)
    requires s.Inv() && s.Pins(key) > 0 && s.Belongs(key, page)
    ensures key in s.table
    ensures var r := WriteFrame(s, key, page);
            && r.Inv()
            && r.View(key) == Some(s.Face(key, page))
            && r.aliases == s.aliases && (forall other | other != key :: r.View(other) == s.View(other))
  {
    hide File.WellFormed, File.UsedPages, Shown;
    WriteFrameKeeps(s, key, page);
    CachedIsOnDisk(s, key);
    var r, i := WriteFrame(s, key, page), s.table[key];
    assert s.Caches(i, key);
    forall j | 0 <= j < |s.descs|
      ensures j != i && s.Clean(j) && s.descs[j].valid ==> r.Clean(j)
    {
    }
    forall other | other in s.table && s.table[other] == i
      ensures other == key
    {
      assert s.Caches(i, other);
    }
  }

  // ----- the destructor -----

  // The disk ends up holding what clients saw of a page, unless the page is cached, not marked dirty, and
  // different from what is on disk.
  lemma {:induction false} DestroyCorrect(s: Pool, i: nat, key: Key)
    requires s.Consistent() && s.OthersRead() && i <= |s.descs| && s.OnDisk(key) && key.file !in s.aliases
    ensures key in s.table ==> s.table[key] < |s.frames| == |s.descs|
    ensures var disk := DestroyFrom(s, i);
            && key.file in disk && key.page in disk[key.file].UsedPages() && key.page in disk[key.file].Pages()
            && disk[key.file].Blob? == s.IsBlob(key.file)
            && (Some(s.Face(key, disk[key.file].Pages()[key.page])) == s.View(key)
                <==> key !in s.table || s.Clean(s.table[key]) || (i <= s.table[key] && s.descs[s.table[key]].dirty))
            && disk.Keys == s.disk.Keys
            && (forall f | f in s.disk :: SameLists(s.disk, disk, f))
    decreases |s.descs| - i
  {
    hide File.WellFormed, File.UsedPages, Shown, WriteDisk, SameLists;
    CachedIsOnDisk(s, key);
    SameListsReflexive(s);
    if key in s.table {
      assert s.Caches(s.table[key], key);
      assert s.FrameConsistent(s.table[key]);
    }
    if i < |s.descs| {
      var d := s.descs[i];
      if d.valid && d.dirty {
        WrittenConsistent(s, i);
        WriteDiskEffect(s, i);
        var w := s.(disk := WriteDisk(s.disk, s.Spot(Key(d.file, d.page)), s.frames[i]));
        DestroyCorrect(w, i + 1, key);
        SameListsTransitive(s.disk, w.disk, DestroyFrom(w, i + 1));
      } else {
        DestroyCorrect(s, i + 1, key);
      }
    }
  }

  lemma SameListsReflexive(s: Pool)
    ensures forall f | f in s.disk :: SameLists(s.disk, s.disk, f)
  {
  }

  lemma SameListsTransitive(a: Disk, b: Disk, c: Disk)
    requires forall f | f in a :: SameLists(a, b, f)
    requires forall f | f in b :: SameLists(b, c, f)
    ensures forall f | f in a :: SameLists(a, c, f)
  {
  }
}
