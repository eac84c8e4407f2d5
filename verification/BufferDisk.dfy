// What becomes of pages on disk while others are cached: a page stays as it is as long as nobody can write
// it back changed, and nothing appears on disk or in a frame that was in neither before.
module BufferDisk {
  import opened Types
  import opened SlottedPage
  import opened Files
  import opened HashTable
  import opened Clock
  import opened BufferPool
  import opened BufferConsistency

  // Writing back what nobody has pinned changes nothing of the page on disk.
  ghost predicate Calm(s: Pool, key: Key) {
    |s.frames| == |s.descs| &&
    forall i | 0 <= i < |s.descs| && s.descs[i].valid && s.descs[i].dirty && s.descs[i].pinCnt == 0 ::
      s.Spot(Key(s.descs[i].file, s.descs[i].page)) == s.Spot(key) ==> s.Clean(i)
  }

  // Then it stays on disk as it is, but for its next pointer, and goes on to do so.
  ghost predicate DiskKept(s: Pool, r: Pool, but: Option<Key>) {
    forall key | Calm(s, key) && (but.Some? ==> s.Spot(but.value) != s.Spot(key)) ::
      && Calm(r, key)
      && (s.OnDisk(key) ==> r.OnDisk(key) && r.DiskFace(key) == s.DiskFace(key))
  }

  // A form in which the page exists, on disk or in some frame.
  ghost predicate IsVersion(s: Pool, key: Key, page: PageState) {
    || (s.OnDisk(key) && page == s.DiskFace(key))
    || exists i | 0 <= i < |s.descs| :: Holds(s, i, key, page)
  }

  ghost predicate Holds(s: Pool, i: FrameId, key: Key, page: PageState) {
    && i < |s.descs| == |s.frames| && s.descs[i].valid
    && s.Spot(Key(s.descs[i].file, s.descs[i].page)) == s.Spot(key) && page == s.FrameFace(i)
  }

  ghost predicate NoNewVersions(s: Pool, r: Pool) {
    forall key, page | IsVersion(r, key, page) :: IsVersion(s, key, page)
  }

  lemma DiskKeptTransitive(s: Pool, q: Pool, r: Pool, but: Option<Key>)
    requires DiskKept(s, q, but) && DiskKept(q, r, but) && q.aliases == s.aliases
    ensures DiskKept(s, r, but)
  {
    hide Calm, Shown;
  }

  lemma DiskKeptBut(s: Pool, r: Pool, but: Option<Key>)
    requires DiskKept(s, r, None)
    ensures DiskKept(s, r, but)
  {
  }

  // ----- taking a frame -----

  lemma EvictDiskKept(s: Pool, i: FrameId)
    requires s.Consistent() && i < |s.descs| && s.descs[i].pinCnt == 0
    ensures DiskKept(s, Evict(s, i), None) && NoNewVersions(s, Evict(s, i))
  {
    hide File.WellFormed, File.UsedPages, Shown, Evict, SameLists, Calm, IsVersion;
    EvictDisk(s, i);
    forall key | Calm(s, key)
      ensures Calm(Evict(s, i), key)
      ensures s.OnDisk(key) ==> Evict(s, i).DiskFace(key) == s.DiskFace(key)
    {
      EvictCalm(s, i, key);
    }
    forall key, page | IsVersion(Evict(s, i), key, page)
      ensures IsVersion(s, key, page)
    {
      EvictVersion(s, i, key, page);
    }
  }

  lemma EvictCalm(s: Pool, i: FrameId, key: Key)
    requires s.Consistent() && i < |s.descs| && s.descs[i].pinCnt == 0 && Calm(s, key)
    ensures Calm(Evict(s, i), key)
    ensures s.OnDisk(key) ==> Evict(s, i).OnDisk(key)
    ensures s.OnDisk(key) ==> Evict(s, i).DiskFace(key) == s.DiskFace(key)
  {
    hide File.WellFormed, File.UsedPages, Shown, Evict, SameLists;
    EvictDisk(s, i);
    var r := Evict(s, i);
    forall j | 0 <= j < |r.descs| && r.descs[j].valid && s.Spot(Key(s.descs[j].file, s.descs[j].page)) == s.Spot(key)
      ensures s.Clean(j) ==> r.Clean(j)
    {
      assert s.FrameConsistent(j);
    }
  }

  lemma EvictVersion(s: Pool, i: FrameId, key: Key, page: PageState)
    requires s.Consistent() && i < |s.descs| && IsVersion(Evict(s, i), key, page)
    ensures IsVersion(s, key, page)
  {
    hide File.WellFormed, File.UsedPages, Shown, Evict, SameLists;
    EvictDisk(s, i);
    var r := Evict(s, i);
    if r.OnDisk(key) && page == r.DiskFace(key) {
      var d := s.descs[i];
      if d.dirty && s.Spot(Key(d.file, d.page)) == s.Spot(key) {
        assert Holds(s, i, key, page);
      }
    } else {
      var j :| 0 <= j < |r.descs| && Holds(r, j, key, page);
      assert Holds(s, j, key, page);
    }
  }

  lemma SweptDiskKept(s: Pool)
    requires s.Consistent()
    ensures DiskKept(s, Swept(s).0, None) && NoNewVersions(s, Swept(s).0)
  {
    hide File.WellFormed, File.UsedPages, Shown, Swept;
    SweptKeeps(s);
    var r := Swept(s).0;
    forall key | Calm(s, key)
      ensures Calm(r, key)
    {
      forall j | 0 <= j < |r.descs| && s.Clean(j)
        ensures r.Clean(j)
      {
      }
    }
    forall key, page | IsVersion(r, key, page)
      ensures IsVersion(s, key, page)
    {
      if !(r.OnDisk(key) && page == r.DiskFace(key)) {
        var j :| 0 <= j < |r.descs| && Holds(r, j, key, page);
        assert Holds(s, j, key, page);
      }
    }
  }

  lemma AllocBufDiskKept(s: Pool)
    requires s.Consistent()
    ensures DiskKept(s, AllocBuf(s).0, None) && NoNewVersions(s, AllocBuf(s).0)
  {
    hide DiskKept, IsVersion, Swept, Evict, Pool.Pins, PinnedUntouched, AllPinned;
    SweptConsistent(s);
    SweptKeeps(s);
    SweptDiskKept(s);
    var (swept, victim) := Swept(s);
    if victim.Some? {
      VictimUnpinned(swept, victim.value);
      EvictDiskKept(swept, victim.value);
      DiskKeptTransitive(s, swept, Evict(swept, victim.value), None);
    }
  }

  // ----- reading and unpinning -----

  lemma LoadDiskKept(s: Pool, i: FrameId, key: Key, page: PageState)
    requires s.Consistent() && i < |s.descs| && s.descs[i] == CLEARED && s.OnDisk(key)
    requires s.Face(key, page) == s.DiskFace(key)
    ensures DiskKept(s, Load(s, i, key, page), None) && NoNewVersions(s, Load(s, i, key, page))
  {
    hide File.WellFormed, File.UsedPages, Shown;
    var r := Load(s, i, key, page);
    forall other | Calm(s, other)
      ensures Calm(r, other)
    {
      forall j | 0 <= j < |r.descs| && j != i && s.descs[j].valid
        ensures s.Clean(j) ==> r.Clean(j)
      {
      }
    }
    forall other, version | IsVersion(r, other, version)
      ensures IsVersion(s, other, version)
    {
      if !(r.OnDisk(other) && version == r.DiskFace(other)) {
        var j :| 0 <= j < |r.descs| && Holds(r, j, other, version);
        assert j != i ==> Holds(s, j, other, version);
      }
    }
  }

  lemma UpdateDiskKept(s: Pool, key: Key, e: BufDesc)
    requires s.Consistent() && key in s.table && s.table[key] < |s.descs|
    requires var d := s.descs[s.table[key]]; e == d.(refbit := e.refbit, pinCnt := e.pinCnt, dirty := e.dirty)
    ensures var r := s.(descs := s.descs[s.table[key] := e]);
            && DiskKept(s, r, Some(key)) && NoNewVersions(s, r)
            && (e.pinCnt > 0 || !e.dirty || s.Clean(s.table[key]) ==> DiskKept(s, r, None))
  {
    hide File.WellFormed, File.UsedPages, Shown;
    var i := s.table[key];
    assert s.Caches(i, key);
    var r := s.(descs := s.descs[i := e]);
    forall j | 0 <= j < |r.descs|
      ensures s.Clean(j) ==> r.Clean(j)
    {
    }
    forall other, version | IsVersion(r, other, version)
      ensures IsVersion(s, other, version)
    {
      if !(r.OnDisk(other) && version == r.DiskFace(other)) {
        var j :| 0 <= j < |r.descs| && Holds(r, j, other, version);
        assert Holds(s, j, other, version);
      }
    }
  }

  lemma ReadPageDiskKept(s: Pool, key: Key)
    requires s.Consistent() && s.Known(key.file)
    ensures DiskKept(s, ReadPage(s, key).pool, None) && NoNewVersions(s, ReadPage(s, key).pool)
  {
    hide DiskKept, IsVersion, AllocBuf, AllPinned, PinnedUntouched, Shown, File.WellFormed;
    CachedIsOnDisk(s, key);
    if key in s.table {
      var d := s.descs[s.table[key]];
      UpdateDiskKept(s, key, d.(refbit := true, pinCnt := d.pinCnt + 1));
    } else {
      AllocBufConsistent(s);
      AllocBufKeeps(s);
      AllocBufDiskKept(s);
      var (q, victim) := AllocBuf(s);
      ReadFromDisk(q, key);
      if victim.Some? && s.OnDisk(key) {
        LoadDiskKept(q, victim.value, key, q.DiskPage(key));
        DiskKeptTransitive(s, q, ReadPage(s, key).pool, None);
      }
    }
  }

  // Unpinning can make a page writable that was changed; one that is as on disk stays so.
  lemma UnPinPageDiskKept(s: Pool, key: Key, dirty: bool)
    requires s.Consistent()
    ensures var r := UnPinPage(s, key, dirty).pool;
            && DiskKept(s, r, Some(key)) && NoNewVersions(s, r)
            && (key in s.table && s.table[key] < |s.descs| == |s.frames| && s.Clean(s.table[key]) ==>
                  DiskKept(s, r, None))
  {
    hide DiskKept, IsVersion, Shown, File.WellFormed, File.UsedPages;
    CachedIsOnDisk(s, key);
    if key in s.table {
      UpdateDiskKept(s, key, UnPinPage(s, key, dirty).pool.descs[s.table[key]]);
    } else {
      NothingWritten(s, Some(key));
    }
  }

  lemma NothingWritten(s: Pool, but: Option<Key>)
    ensures DiskKept(s, s, but) && NoNewVersions(s, s)
  {
    hide Calm;
  }

  lemma WriteFrameDiskKept(s: Pool, key: Key, page: PageState)
    requires s.Consistent() && s.Pins(key) > 0 && s.Belongs(key, page)
    ensures key in s.table
    ensures DiskKept(s, WriteFrame(s, key, page), None)
  {
    hide File.WellFormed, File.UsedPages, Shown;
    CachedIsOnDisk(s, key);
    var r, i := WriteFrame(s, key, page), s.table[key];
    forall j | 0 <= j < |r.descs| && j != i && s.descs[j].valid
      ensures s.Clean(j) ==> r.Clean(j)
    {
    }
  }

  // ----- flushing -----

  lemma {:induction false} FlushFromDiskKept(s: Pool, f: FileId, i: nat)
    requires s.Consistent() && i <= |s.descs|
    ensures DiskKept(s, FlushFrom(s, f, i).pool, None) && NoNewVersions(s, FlushFrom(s, f, i).pool)
    decreases |s.descs| - i
  {
    hide DiskKept, IsVersion, Evict, Pool.Consistent, Pool.Pins, SameLists;
    if i == |s.descs| {
      NothingWritten(s, None);
    } else if s.descs[i].valid && s.descs[i].file == f && s.descs[i].pinCnt == 0 {
      EvictDiskKept(s, i);
      EvictKeeps(s, i);
      var q := Evict(s, i);
      FlushFromDiskKept(q, f, i + 1);
      DiskKeptTransitive(s, q, FlushFrom(q, f, i + 1).pool, None);
    } else if s.descs[i].file == f {
      NothingWritten(s, None);
    } else {
      FlushFromDiskKept(s, f, i + 1);
    }
  }

  lemma FlushFileDiskKept(s: Pool, f: FileId)
    requires s.Consistent()
    ensures DiskKept(s, FlushFile(s, f).pool, None) && NoNewVersions(s, FlushFile(s, f).pool)
  {
    hide FlushFrom, DiskKept;
    FlushFromDiskKept(s, f, 0);
  }

  // ----- allocating and disposing of pages -----

  lemma AllocPageDiskKept(s: Pool, f: FileId)
    requires s.Consistent() && s.Known(f) && MayAllocate(s.disk[s.Home(f)])
    ensures var r := AllocPage(s, f);
            && (r.status != PoolOk ==> DiskKept(s, r.pool, None))
            && (r.status == PoolOk ==> DiskKept(s, r.pool, Some(Key(f, r.page))))
  {
    hide DiskKept, AllocBuf, AllocatedFile, AllPinned, PinnedUntouched, Shown, File.WellFormed, WithNewPage,
         Pool.Pins;
    AllocPageIs(s, f);
    AllocBufKeeps(s);
    AllocBufDiskKept(s);
    var (q, victim) := AllocBuf(s);
    if victim.Some? {
      NewPageDiskKept(q, f, victim.value);
      var key := Key(f, AllocPage(s, f).page);
      DiskKeptBut(s, q, Some(key));
      DiskKeptTransitive(s, q, AllocPage(s, f).pool, Some(key));
    }
  }

  lemma NewPageDiskKept(q: Pool, f: FileId, i: FrameId)
    requires q.Consistent() && q.Known(f) && MayAllocate(q.disk[q.Home(f)]) && i < |q.descs|
    requires q.descs[i] == CLEARED
    ensures q.disk[q.Home(f)].WellFormed()
    ensures DiskKept(q, WithNewPage(q, f, i), Some(Key(f, AllocatedFile(q.disk[q.Home(f)]).number)))
  {
    hide File.WellFormed, File.UsedPages, AllocatedFile, Shown, Pool.Pins;
    GrownPool(q, f);
    var a := AllocatedFile(q.disk[q.Home(f)]);
    var grown, key := q.(disk := q.disk[q.Home(f) := a.file]), Key(f, a.number);
    var r := WithNewPage(q, f, i);
    forall other | q.OnDisk(other)
      ensures r.OnDisk(other) && r.DiskFace(other) == q.DiskFace(other)
    {
      assert grown.OnDisk(other);
    }
    forall j | 0 <= j < |r.descs| && j != i && q.descs[j].valid
      ensures q.Clean(j) ==> r.Clean(j)
    {
      assert q.FrameConsistent(j);
    }
  }

  lemma DisposePageDiskKept(s: Pool, key: Key)
    requires s.Consistent() && s.Known(key.file)
    ensures DiskKept(s, DisposePage(s, key).pool, Some(key))
  {
    hide File.WellFormed, File.UsedPages, DeletedFile, Shown, Pool.Pins;
    CachedIsOnDisk(s, key);
    DisposedPages(s, key);
    DeleteCorrect(s.disk[s.Home(key.file)], key.page);
    var r := DisposePage(s, key).pool;
    forall other | s.OnDisk(other) && s.Spot(other) != s.Spot(key)
      ensures r.OnDisk(other) && r.DiskFace(other) == s.DiskFace(other)
    {
    }
    forall j | 0 <= j < |r.descs| && r.descs[j].valid && s.Spot(Key(s.descs[j].file, s.descs[j].page)) != s.Spot(key)
      ensures s.Clean(j) ==> r.Clean(j)
    {
      assert s.FrameConsistent(j);
    }
  }

  // ----- what stays in the frames -----

  // Every cached page of the file in r was so in s, in the same frame with the same bytes.
  ghost predicate FramesStay(s: Pool, r: Pool, home: FileId) {
    r.aliases == s.aliases && |s.frames| == |s.descs| == |r.descs| == |r.frames| &&
    forall i | 0 <= i < |r.descs| && r.descs[i].valid && s.Home(r.descs[i].file) == home ::
      && s.descs[i].valid && s.descs[i].file == r.descs[i].file && s.descs[i].page == r.descs[i].page
      && r.frames[i] == s.frames[i]
  }

  lemma AllocBufFramesStay(s: Pool, home: FileId)
    requires s.Consistent()
    ensures FramesStay(s, AllocBuf(s).0, home)
  {
    hide Swept, Evict, Pool.Pins, PinnedUntouched, AllPinned, SameLists;
    SweptConsistent(s);
    SweptKeeps(s);
    var (swept, victim) := Swept(s);
    if victim.Some? {
      EvictDisk(swept, victim.value);
    }
  }

  lemma ReadPageFramesStay(s: Pool, key: Key, home: FileId)
    requires s.Consistent() && s.Known(key.file) && s.Home(key.file) != home
    ensures FramesStay(s, ReadPage(s, key).pool, home)
  {
    hide AllocBuf, File.WellFormed, File.UsedPages;
    AllocBufConsistent(s);
    AllocBufFramesStay(s, home);
  }

  lemma AllocPageFramesStay(s: Pool, f: FileId, home: FileId)
    requires s.Consistent() && s.Known(f) && s.Home(f) != home
    ensures FramesStay(s, AllocPage(s, f).pool, home)
  {
    hide AllocBuf, AllocatedFile, File.WellFormed, File.UsedPages;
    AllocBufConsistent(s);
    AllocBufFramesStay(s, home);
  }

  lemma DisposePageFramesStay(s: Pool, key: Key, home: FileId)
    requires s.Consistent() && s.Known(key.file)
    ensures FramesStay(s, DisposePage(s, key).pool, home)
  {
    hide DeletedFile, File.WellFormed, File.UsedPages;
    CachedIsOnDisk(s, key);
  }

  lemma UnPinPageFramesStay(s: Pool, key: Key, dirty: bool, home: FileId)
    requires s.Consistent()
    ensures FramesStay(s, UnPinPage(s, key, dirty).pool, home)
  {
    hide File.WellFormed, File.UsedPages;
    CachedIsOnDisk(s, key);
  }

  lemma WriteFrameFramesStay(s: Pool, key: Key, page: PageState, home: FileId)
    requires s.Consistent() && key in s.table && s.Home(key.file) != home
    ensures FramesStay(s, WriteFrame(s, key, page), home)
  {
    assert s.Caches(s.table[key], key);
  }

  lemma {:induction false} FlushFromFramesStay(s: Pool, f: FileId, i: nat, home: FileId)
    requires s.Consistent() && i <= |s.descs|
    ensures FramesStay(s, FlushFrom(s, f, i).pool, home)
    decreases |s.descs| - i
  {
    hide Evict, Pool.Pins, SameLists, File.WellFormed, File.UsedPages;
    if i < |s.descs| {
      if s.descs[i].valid && s.descs[i].file == f && s.descs[i].pinCnt == 0 {
        EvictConsistent(s, i);
        EvictDisk(s, i);
        FlushFromFramesStay(Evict(s, i), f, i + 1, home);
      } else if s.descs[i].file != f {
        FlushFromFramesStay(s, f, i + 1, home);
      }
    }
  }

  lemma FlushFileFramesStay(s: Pool, f: FileId, home: FileId)
    requires s.Consistent()
    ensures FramesStay(s, FlushFile(s, f).pool, home)
  {
    FlushFromFramesStay(s, f, 0, home);
  }

  // What is on disk of the file was there before or in a frame.
  ghost predicate DiskFrom(s: Pool, r: Pool, home: FileId) {
    r.aliases == s.aliases &&
    forall key: Key | s.Home(key.file) == home && r.OnDisk(key) :: IsVersion(s, key, r.DiskFace(key))
  }

  lemma NoNewVersionsDiskFrom(s: Pool, r: Pool, home: FileId)
    requires NoNewVersions(s, r) && r.aliases == s.aliases
    ensures DiskFrom(s, r, home)
  {
    hide IsVersion;
    forall key | r.OnDisk(key)
      ensures IsVersion(r, key, r.DiskFace(key))
    {
      OnDiskIsVersion(r, key);
    }
  }

  lemma OnDiskIsVersion(s: Pool, key: Key)
    ensures s.OnDisk(key) ==> IsVersion(s, key, s.DiskFace(key))
  {
  }

  lemma SameDiskFrom(s: Pool, q: Pool, r: Pool, home: FileId)
    requires DiskFrom(s, q, home) && r.aliases == q.aliases
    requires home in r.disk ==> home in q.disk && r.disk[home] == q.disk[home]
    ensures DiskFrom(s, r, home)
  {
    hide IsVersion, Shown, File.UsedPages;
    forall key: Key | s.Home(key.file) == home && r.OnDisk(key)
      ensures q.OnDisk(key) && r.DiskFace(key) == q.DiskFace(key)
    {
    }
  }

  // If the file changes on disk by write-backs only, and frames stay, its pages exist in no new form.
  lemma NoVersionsAdded(s: Pool, r: Pool, home: FileId)
    requires FramesStay(s, r, home) && DiskFrom(s, r, home) && forall f :: r.IsBlob(f) == s.IsBlob(f)
    ensures forall key: Key, page | s.Home(key.file) == home && IsVersion(r, key, page) :: IsVersion(s, key, page)
  {
    hide Shown;
    forall key: Key, page | s.Home(key.file) == home && IsVersion(r, key, page)
      ensures IsVersion(s, key, page)
    {
      if !(r.OnDisk(key) && page == r.DiskFace(key)) {
        var j :| 0 <= j < |r.descs| && Holds(r, j, key, page);
        assert Holds(s, j, key, page);
      }
    }
  }

  lemma AllocPageDiskFrom(s: Pool, f: FileId, home: FileId)
    requires s.Consistent() && s.Known(f) && s.Home(f) != home
    ensures DiskFrom(s, AllocPage(s, f).pool, home)
  {
    hide AllocBuf, AllocatedFile, File.WellFormed, File.UsedPages, DiskFrom, NoNewVersions, DiskKept;
    AllocBufConsistent(s);
    AllocBufDiskKept(s);
    NoNewVersionsDiskFrom(s, AllocBuf(s).0, home);
    SameDiskFrom(s, AllocBuf(s).0, AllocPage(s, f).pool, home);
  }

  lemma DisposePageDiskFrom(s: Pool, key: Key, home: FileId)
    requires s.Consistent() && s.Known(key.file) && s.Home(key.file) != home
    ensures DiskFrom(s, DisposePage(s, key).pool, home)
  {
    hide DeletedFile, File.WellFormed, File.UsedPages, DiskFrom, NoNewVersions;
    NothingWritten(s, None);
    NoNewVersionsDiskFrom(s, s, home);
    SameDiskFrom(s, s, DisposePage(s, key).pool, home);
  }

  lemma WriteFrameDiskFrom(s: Pool, key: Key, page: PageState, home: FileId)
    requires s.Consistent() && key in s.table
    ensures DiskFrom(s, WriteFrame(s, key, page), home)
  {
    hide DiskFrom, NoNewVersions, File.WellFormed, File.UsedPages;
    NothingWritten(s, None);
    NoNewVersionsDiskFrom(s, s, home);
    SameDiskFrom(s, s, WriteFrame(s, key, page), home);
  }

  // What object g has cached is as on disk.
  ghost predicate OwnClean(s: Pool, g: FileId) {
    |s.frames| == |s.descs| &&
    forall i | 0 <= i < |s.descs| && s.descs[i].valid && s.descs[i].file == g :: s.Clean(i)
  }

  lemma ReadOwnFrames(s: Pool, key: Key)
    requires s.Consistent() && s.OnDisk(key) && OwnClean(s, key.file) && forall p :: Calm(s, Key(key.file, p))
    ensures OwnClean(ReadPage(s, key).pool, key.file)
  {
    hide File.WellFormed, File.UsedPages, Shown, AllocBuf, AllPinned, PinnedUntouched, PinnedStay, Calm,
         Pool.Pins, NoNewVersions, SameLists;
    CachedIsOnDisk(s, key);
    var r := ReadPage(s, key).pool;
    if key in s.table {
      forall i | 0 <= i < |r.descs|
        ensures s.Clean(i) ==> r.Clean(i)
      {
        assert s.Caches(s.table[key], key);
      }
    } else {
      AllocBufConsistent(s);
      AllocBufKeeps(s);
      AllocBufDiskKept(s);
      AllocBufFramesStay(s, s.Home(key.file));
      var (q, victim) := AllocBuf(s);
      forall i | 0 <= i < |q.descs| && q.descs[i].valid && q.descs[i].file == key.file
        ensures q.Clean(i)
      {
        assert s.Clean(i) && Calm(s, Key(key.file, q.descs[i].page));
      }
      ReadFromDisk(q, key);
      if victim.Some? {
        forall i | 0 <= i < |r.descs| && r.descs[i].valid && r.descs[i].file == key.file && i != victim.value
          ensures r.Clean(i)
        {
          assert q.Clean(i);
        }
      }
    }
  }

  // ----- what allocation and changes add -----

  lemma NewPageVersions(q: Pool, f: FileId, i: FrameId)
    requires q.Consistent() && q.Known(f) && MayAllocate(q.disk[q.Home(f)]) && i < |q.descs|
    requires q.descs[i] == CLEARED
    ensures q.disk[q.Home(f)].WellFormed()
    ensures var number := AllocatedFile(q.disk[q.Home(f)]).number;
            forall key, page | IsVersion(WithNewPage(q, f, i), key, page) ::
              IsVersion(q, key, page) || page == FreshPage(q.IsBlob(f), number)
  {
    hide File.WellFormed, File.UsedPages, AllocatedFile, Pool.Pins;
    GrownPool(q, f);
    AllocateWellFormedIff(q.disk[q.Home(f)]);
    var r, a := WithNewPage(q, f, i), AllocatedFile(q.disk[q.Home(f)]);
    var grown := q.(disk := q.disk[q.Home(f) := a.file]);
    forall key, page | IsVersion(r, key, page)
      ensures IsVersion(q, key, page) || page == FreshPage(q.IsBlob(f), a.number)
    {
      if r.OnDisk(key) && page == r.DiskFace(key) {
        assert grown.OnDisk(key) && grown.DiskPage(key) == r.DiskPage(key);
      } else {
        var j :| 0 <= j < |r.descs| && Holds(r, j, key, page);
        assert j != i ==> Holds(q, j, key, page);
      }
    }
  }

  lemma AllocPageVersions(s: Pool, f: FileId)
    requires s.Consistent() && s.Known(f) && MayAllocate(s.disk[s.Home(f)])
    ensures var r := AllocPage(s, f);
            forall key, page | IsVersion(r.pool, key, page) ::
              IsVersion(s, key, page) || page == FreshPage(s.IsBlob(f), r.page)
  {
    hide IsVersion, AllocBuf, AllocatedFile, AllPinned, PinnedUntouched, Shown, File.WellFormed, WithNewPage,
         Pool.Pins;
    AllocPageIs(s, f);
    AllocBufKeeps(s);
    AllocBufDiskKept(s);
    var (q, victim) := AllocBuf(s);
    if victim.Some? {
      NewPageVersions(q, f, victim.value);
    }
  }

  lemma WriteFrameVersions(s: Pool, k: Key, changed: PageState)
    requires s.Consistent() && k in s.table
    ensures forall key, page | IsVersion(WriteFrame(s, k, changed), key, page) ::
              IsVersion(s, key, page) || page == s.Face(k, changed)
  {
    hide File.WellFormed, File.UsedPages, Shown;
    var r := WriteFrame(s, k, changed);
    forall key, page | IsVersion(r, key, page)
      ensures IsVersion(s, key, page) || page == s.Face(k, changed)
    {
      if !(r.OnDisk(key) && page == r.DiskFace(key)) {
        var j :| 0 <= j < |r.descs| && Holds(r, j, key, page);
        assert j != s.table[k] ==> Holds(s, j, key, page);
      }
    }
  }
}
