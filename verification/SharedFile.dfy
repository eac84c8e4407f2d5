// A second File object for a file that clients already use. Both read and write the same file on disk, but the
// buffer manager takes it for another file: it finds none of the pages cached under the first object.
module SharedFile {
  import opened Types
  import opened SlottedPage
  import opened Files
  import opened HashTable
  import opened BufferPool
  import opened BufferConsistency
  import opened BufferDisk
  import opened RecordOrder

  // Object g opened on the file of object f.
  function Opened(s: Pool, f: FileId, g: FileId): Pool {
    s.(aliases := s.aliases[g := s.Home(f)])
  }

  ghost predicate Unused(s: Pool, g: FileId) {
    g != 0 && g !in s.disk && g !in s.aliases
  }

  // Every cached page of file f holds what is on disk.
  ghost predicate Written(s: Pool, f: FileId) {
    |s.frames| == |s.descs| && forall i | 0 <= i < |s.descs| && s.descs[i].valid && s.descs[i].file == f :: s.Clean(i)
  }

  function DiskView(s: Pool, key: Key): Option<PageState> {
    if s.OnDisk(key) then Some(s.DiskFace(key)) else None
  }

  // Opening the file again changes nothing for anybody; the new object shows the disk.
  lemma OpenedConsistent(s: Pool, f: FileId, g: FileId)
    requires s.Consistent() && s.Known(f) && Unused(s, g)
    ensures var t := Opened(s, f, g);
            && t.Consistent() && (s.Inv() ==> t.Inv())
            && (forall key: Key | key.file != g :: t.View(key) == s.View(key))
            && (forall key :: t.Pins(key) == s.Pins(key))
            && (forall p :: t.View(Key(g, p)) == DiskView(s, Key(f, p)))
            && t.Known(g) && t.Known(f)
  {
    hide File.WellFormed, File.UsedPages, Shown, Pool.Clean, Pool.FrameConsistent;
    var t := Opened(s, f, g);
    forall key
      ensures key in s.table ==> key.file != g && s.OnDisk(key)
    {
      CachedIsOnDisk(s, key);
    }
    forall i | 0 <= i < |s.descs|
      ensures t.FrameConsistent(i)
      ensures s.descs[i].valid ==> s.descs[i].file != g && (s.Clean(i) ==> t.Clean(i))
    {
      OpenedFrame(s, f, g, i);
    }
  }

  lemma OpenedFrame(s: Pool, f: FileId, g: FileId, i: FrameId)
    requires s.Consistent() && s.Known(f) && Unused(s, g) && i < |s.descs|
    ensures Opened(s, f, g).FrameConsistent(i)
    ensures s.descs[i].valid ==> s.descs[i].file != g && (s.Clean(i) ==> Opened(s, f, g).Clean(i))
  {
    hide File.WellFormed, File.UsedPages, Shown;
    assert s.FrameConsistent(i);
  }

  // Clients of the two objects see the same pages if and only if nothing changed is still unwritten.
  lemma SecondViewIff(s: Pool, f: FileId, g: FileId)
    requires s.Consistent() && s.Known(f) && Unused(s, g)
    ensures (forall p :: Opened(s, f, g).View(Key(g, p)) == s.View(Key(f, p))) <==> Written(s, f)
  {
    hide File.WellFormed, File.UsedPages, Shown, Opened;
    OpenedConsistent(s, f, g);
    forall p
      ensures DiskView(s, Key(f, p)) == s.View(Key(f, p)) <==>
        (Key(f, p) in s.table ==> s.table[Key(f, p)] < |s.descs| && s.Clean(s.table[Key(f, p)]))
      ensures Key(f, p) in s.table ==> s.Caches(s.table[Key(f, p)], Key(f, p))
    {
      CachedIsOnDisk(s, Key(f, p));
      assert Key(f, p) in s.table ==> s.Caches(s.table[Key(f, p)], Key(f, p));
    }
    forall i | 0 <= i < |s.descs| && s.descs[i].valid && s.descs[i].file == f
      ensures Key(f, s.descs[i].page) in s.table && s.table[Key(f, s.descs[i].page)] == i
    {
      assert s.FrameConsistent(i);
    }
    if forall p :: Opened(s, f, g).View(Key(g, p)) == s.View(Key(f, p)) {
      forall i | 0 <= i < |s.descs| && s.descs[i].valid && s.descs[i].file == f
        ensures s.Clean(i)
      {
        assert Opened(s, f, g).View(Key(g, s.descs[i].page)) == s.View(Key(f, s.descs[i].page));
      }
    }
  }

  // A flush that succeeds is what a caller can do for that.
  lemma FlushedIsWritten(s: Pool, f: FileId)
    requires s.Consistent() && f != 0 && FlushFile(s, f).status == PoolOk
    ensures Written(FlushFile(s, f).pool, f)
  {
    hide File.WellFormed, File.UsedPages, Shown, FlushFrom, Pool.Pins, PinnedUntouched;
    FlushFileKeeps(s, f);
  }

  // ----- what a scan lists -----

  // The same records with the same bytes.
  ghost predicate SameListing(s: Pool, f: FileId, t: Pool, g: FileId)
    requires s.Known(f) && InOrder(s, f) && t.Known(g) && InOrder(t, g)
  {
    && AllRecords(t, g) == AllRecords(s, f)
    && forall rid | IsRecord(s, f, rid) && IsRecord(t, g, rid) :: RecordAt(t, g, rid) == RecordAt(s, f, rid)
  }

  lemma {:induction false} SortedUnique(a: seq<RecordId>, b: seq<RecordId>)
    requires Sorted(a) && Sorted(b) && forall rid :: rid in a <==> rid in b
    ensures a == b
  {
    assert a != [] ==> a[0] in b;
    assert b != [] ==> b[0] in a;
    if a != [] && b != [] {
      assert a[0] == b[0] by {
        assert a[0] in b && b[0] in a;
        var i :| 0 <= i < |b| && b[i] == a[0];
        var j :| 0 <= j < |a| && a[j] == b[0];
      }
      forall rid
        ensures rid in a[1..] <==> rid in b[1..]
      {
        assert rid in a <==> rid == a[0] || rid in a[1..];
        assert rid in b <==> rid == b[0] || rid in b[1..];
      }
      SortedUnique(a[1..], b[1..]);
    }
  }

  lemma PageMapRecords(s: Pool, f: FileId, rid: RecordId)
    requires InOrder(s, f)
    ensures var view := s.View(Key(f, rid.pageNumber));
            && (view.Some? ==> view.value.WellFormed())
            && (rid.slotNumber in PageMap(view) <==> IsRecord(s, f, rid))
            && (IsRecord(s, f, rid) ==> PageMap(view)[rid.slotNumber] == RecordAt(s, f, rid))
  {
    hide Pool.View;
  }

  // Two files list the same records if and only if page by page they hold the same.
  lemma ListingIff(s: Pool, f: FileId, t: Pool, g: FileId)
    requires s.Consistent() && s.Known(f) && InOrder(s, f) && t.Consistent() && t.Known(g) && InOrder(t, g)
    ensures SameListing(s, f, t, g) <==> forall p :: PageMap(s.View(Key(f, p))) == PageMap(t.View(Key(g, p)))
  {
    hide Pool.View, Pool.Consistent, AllRecords, Sorted, PageMap, IsRecord, RecordAt, InOrder, PageState.WellFormed;
    AllRecordsExact(s, f);
    AllRecordsExact(t, g);
    InOrderViews(s, f);
    InOrderViews(t, g);
    forall rid: RecordId
      ensures rid.slotNumber in PageMap(s.View(Key(f, rid.pageNumber))) <==> IsRecord(s, f, rid)
      ensures rid.slotNumber in PageMap(t.View(Key(g, rid.pageNumber))) <==> IsRecord(t, g, rid)
      ensures IsRecord(s, f, rid) ==> PageMap(s.View(Key(f, rid.pageNumber)))[rid.slotNumber] == RecordAt(s, f, rid)
      ensures IsRecord(t, g, rid) ==> PageMap(t.View(Key(g, rid.pageNumber)))[rid.slotNumber] == RecordAt(t, g, rid)
    {
      PageMapRecords(s, f, rid);
      PageMapRecords(t, g, rid);
    }
    if SameListing(s, f, t, g) {
      forall p
        ensures PageMap(s.View(Key(f, p))) == PageMap(t.View(Key(g, p)))
      {
        var a, b := PageMap(s.View(Key(f, p))), PageMap(t.View(Key(g, p)));
        forall slot: SlotId
          ensures slot in a <==> slot in b
          ensures slot in a && slot in b ==> a[slot] == b[slot]
        {
          assert RecordId(p, slot).slotNumber == slot;
          assert RecordId(p, slot) in AllRecords(s, f) <==> RecordId(p, slot) in AllRecords(t, g);
        }
      }
    }
    if forall p :: PageMap(s.View(Key(f, p))) == PageMap(t.View(Key(g, p))) {
      forall rid
        ensures IsRecord(s, f, rid) <==> IsRecord(t, g, rid)
      {
        assert PageMap(s.View(Key(f, rid.pageNumber))) == PageMap(t.View(Key(g, rid.pageNumber)));
      }
      SortedUnique(AllRecords(s, f), AllRecords(t, g));
    }
  }

  lemma InOrderViews(s: Pool, f: FileId)
    requires InOrder(s, f)
    ensures forall p :: s.View(Key(f, p)).Some? ==> s.View(Key(f, p)).value.WellFormed()
  {
  }

  ghost predicate DiskInOrder(s: Pool, f: FileId) {
    forall p: PageId, page: PageState | DiskView(s, Key(f, p)) == Some(page) :: page.WellFormed()
  }

  // Every cached page of file f holds the records that are on disk.
  ghost predicate RecordsWritten(s: Pool, f: FileId)
    requires InOrder(s, f) && DiskInOrder(s, f)
  {
    forall p: PageId | Key(f, p) in s.table :: PageMap(s.View(Key(f, p))) == PageMap(DiskView(s, Key(f, p)))
  }

  // A scan through the second object lists the clients' records, with their bytes, if and only if every cached
  // page of the file holds the records that are on disk.
  lemma SecondScanIff(s: Pool, f: FileId, g: FileId)
    requires s.Consistent() && s.Known(f) && Unused(s, g)
    requires InOrder(s, f) && DiskInOrder(s, f)
    ensures InOrder(Opened(s, f, g), g) && Opened(s, f, g).Known(g)
    ensures SameListing(s, f, Opened(s, f, g), g) <==> RecordsWritten(s, f)
  {
    hide Pool.View, Pool.Consistent, PageMap, PageState.WellFormed, SameListing, Opened, DiskView;
    OpenedConsistent(s, f, g);
    OpenedHas(s, f, g);
    InOrderViews(s, f);
    InOrderViews(Opened(s, f, g), g);
    ListingIff(s, f, Opened(s, f, g), g);
    forall p
      ensures Opened(s, f, g).View(Key(g, p)) == DiskView(s, Key(f, p))
      ensures Key(f, p) !in s.table ==> s.View(Key(f, p)) == DiskView(s, Key(f, p))
    {
      UncachedView(s, Key(f, p));
    }
  }

  lemma UncachedView(s: Pool, key: Key)
    ensures key !in s.table ==> s.View(key) == DiskView(s, key)
  {
  }

  // In particular when everything has been written.
  lemma SecondScanWritten(s: Pool, f: FileId, g: FileId)
    requires s.Consistent() && s.Known(f) && Unused(s, g) && InOrder(s, f) && Written(s, f)
    ensures InOrder(Opened(s, f, g), g) && Opened(s, f, g).Known(g) && SameListing(s, f, Opened(s, f, g), g)
  {
    hide Pool.View, Pool.Consistent, PageMap, PageState.WellFormed, SameListing, Opened, Written;
    SecondViewIff(s, f, g);
    OpenedConsistent(s, f, g);
    OpenedHas(s, f, g);
    forall p, page: PageState | Opened(s, f, g).View(Key(g, p)) == Some(page)
      ensures page.WellFormed()
    {
      assert s.View(Key(f, p)) == Some(page);
    }
    ListingIff(s, f, Opened(s, f, g), g);
  }

  lemma OpenedHas(s: Pool, f: FileId, g: FileId)
    requires s.Consistent() && s.Known(f) && Unused(s, g)
    ensures Opened(s, f, g).Known(g) && Opened(s, f, g).Known(f)
  {
  }

  // ----- what evictions can do to it -----

  // Nothing that evictions write back changes what is on disk of the file, and what object g has cached is as on
  // disk: the object goes on to show the file as it is.
  ghost predicate Still(s: Pool, g: FileId) {
    (forall p :: Calm(s, Key(g, p))) && OwnClean(s, g)
  }

  // Whatever clients have changed on a page of the file and not written, they still have pinned.
  ghost predicate UnwrittenPinned(s: Pool, f: FileId) {
    |s.frames| == |s.descs| &&
    forall i | 0 <= i < |s.descs| && s.descs[i].valid && s.descs[i].file == f && s.descs[i].pinCnt == 0 :: s.Clean(i)
  }

  lemma StillWhenPinned(s: Pool, f: FileId, g: FileId)
    requires s.Consistent() && s.OthersRead() && f in s.disk && Unused(s, g) && UnwrittenPinned(s, f)
    ensures Still(Opened(s, f, g), g)
  {
    hide File.WellFormed, File.UsedPages, Shown;
    OpenedConsistent(s, f, g);
    var t := Opened(s, f, g);
    forall i | 0 <= i < |s.descs| && s.descs[i].valid
      ensures s.descs[i].file != g
      ensures s.Clean(i) ==> t.Clean(i)
      ensures s.descs[i].dirty && t.Home(s.descs[i].file) == f ==> s.descs[i].file == f
    {
      assert s.FrameConsistent(i);
    }
  }

  lemma WrittenIsPinned(s: Pool, f: FileId)
    requires Written(s, f)
    ensures UnwrittenPinned(s, f)
  {
  }

  lemma StillView(s: Pool, g: FileId)
    requires s.Consistent() && Still(s, g)
    ensures forall p :: s.View(Key(g, p)) == DiskView(s, Key(g, p))
  {
    hide File.WellFormed, File.UsedPages, Shown;
    forall p
      ensures s.View(Key(g, p)) == DiskView(s, Key(g, p))
    {
      CachedIsOnDisk(s, Key(g, p));
      if Key(g, p) in s.table {
        assert s.Caches(s.table[Key(g, p)], Key(g, p));
      }
    }
  }

  // While it is still, reading and unpinning through the object changes nothing of what it shows.
  lemma StillKept(s: Pool, r: Pool, g: FileId)
    requires s.Consistent() && Still(s, g) && s.Known(g) && Kept(s, r) && DiskKept(s, r, None)
    requires OwnClean(r, g)
    ensures Still(r, g) && SameFile(s, r, g)
  {
    hide File.WellFormed, File.UsedPages, Shown, Pool.View, Calm, Pool.Consistent, PinnedStay;
    forall p
      ensures Calm(r, Key(g, p))
      ensures DiskView(r, Key(g, p)) == DiskView(s, Key(g, p))
    {
      assert Calm(s, Key(g, p));
    }
    FramesMatch(r);
    StillView(s, g);
    StillView(r, g);
    SizeKept(s, r, g);
  }

  lemma FramesMatch(s: Pool)
    requires s.Consistent()
    ensures |s.frames| == |s.descs|
  {
  }

  lemma SizeKept(s: Pool, r: Pool, g: FileId)
    requires Kept(s, r) && s.Known(g)
    ensures SameLists(s.disk, r.disk, s.Home(g))
  {
  }
}
