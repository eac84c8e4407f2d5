// The value of a buffer pool over a disk of files, and what each operation of the buffer manager makes
// of it. The hash table appears as the map it stands for.
module BufferPool {
  import opened Types
  import opened SlottedPage
  import opened Files
  import opened HashTable
  import opened Clock

  // A file goes by the first of its File objects.
  type Disk = map<FileId, File>

  function HomeIn(aliases: map<FileId, FileId>, f: FileId): FileId {
    if f in aliases then aliases[f] else f
  }

  datatype PoolStatus = PoolOk | BufferExceeded | PageNotPinned | PagePinned | BadBuffer | NotCached | InvalidPageNumber

  datatype Pool = Pool(hand: nat, descs: seq<BufDesc>, frames: seq<PageState>, table: map<Key, FrameId>, disk: Disk,
                       aliases: map<FileId, FileId>)
  {
    // The file of a File object: aliases holds the objects opened on a file that has one already.
    function Home(f: FileId): FileId {
      HomeIn(aliases, f)
    }

    // Where a page is on disk. To the pool, pages under different objects are different pages.
    function Spot(key: Key): Key {
      Key(Home(key.file), key.page)
    }

    predicate Known(f: FileId) {
      Home(f) in disk
    }

    predicate Caches(i: FrameId, key: Key) {
      i < |descs| && descs[i].valid && descs[i].file == key.file && descs[i].page == key.page
    }

    predicate OnDisk(key: Key) {
      && Known(key.file) && key.page in disk[Home(key.file)].UsedPages()
      && key.page in disk[Home(key.file)].Pages()
    }

    function DiskPage(key: Key): PageState
      requires OnDisk(key)
    {
      disk[Home(key.file)].Pages()[key.page]
    }

    function BlobFiles(): set<FileId> {
      set f | f in disk && disk[f].Blob?
    }

    predicate IsBlob(f: FileId) {
      Known(f) && disk[Home(f)].Blob?
    }

    // In a file of linked pages a page holds its own number.
    predicate Belongs(key: Key, page: PageState) {
      IsBlob(key.file) || page.pageNumber == key.page
    }

    // A page as clients see it; next pointers belong to the file and are not part of it.
    function Face(key: Key, page: PageState): PageState {
      Shown(IsBlob(key.file), page)
    }

    function DiskFace(key: Key): PageState
      requires OnDisk(key)
    {
      Face(key, DiskPage(key))
    }

    function FrameFace(i: FrameId): PageState
      requires i < |descs| == |frames|
    {
      Face(Key(descs[i].file, descs[i].page), frames[i])
    }

    // What a client sees of a page: the cached copy if there is one, otherwise the one on disk.
    function View(key: Key): Option<PageState> {
      if !OnDisk(key) then None
      else Some(Face(key, if key in table && table[key] < |frames| then frames[table[key]] else DiskPage(key)))
    }

    // How often a page is pinned; a page that is not cached is not pinned.
    function Pins(key: Key): nat {
      if key in table && table[key] < |descs| then descs[table[key]].pinCnt else 0
    }

    // The shape of the pool: the table and the valid frames name each other, invalid frames are cleared,
    // cached pages are in use on disk, and the files are in order.
    ghost predicate Consistent() {
      && |frames| == |descs|
      && (descs != [] ==> hand < |descs|)
      && (forall i | 0 <= i < |descs| :: FrameConsistent(i))
      && (forall key | key in table :: Caches(table[key], key))
      && (forall f | f in disk :: f != 0 && disk[f].WellFormed())
      && (forall f | f in aliases :: f != 0 && f !in disk && aliases[f] in disk)
    }

    ghost predicate FrameConsistent(i: FrameId)
      requires i < |descs| == |frames|
    {
      var d := descs[i];
      if d.valid then
        var key := Key(d.file, d.page);
        key in table && table[key] == i && OnDisk(key) && Belongs(key, frames[i])
      else d == CLEARED
    }

    // A frame whose page could be dropped without loss.
    predicate Clean(i: FrameId)
      requires i < |descs| == |frames|
    {
      var d := descs[i];
      OnDisk(Key(d.file, d.page)) && FrameFace(i) == DiskFace(Key(d.file, d.page))
    }

    // Every frame that nobody has pinned and that is not marked dirty is clean. This is about pages under the
    // first object of their file; the other objects only read.
    ghost predicate Coherent()
      requires |frames| == |descs|
    {
      forall i | 0 <= i < |descs| && descs[i].valid && !descs[i].dirty ::
        descs[i].file !in aliases && descs[i].pinCnt == 0 ==> Clean(i)
    }

    ghost predicate OthersRead() {
      forall i | 0 <= i < |descs| && descs[i].valid && descs[i].file in aliases :: !descs[i].dirty
    }

    ghost predicate Inv() {
      Consistent() && Coherent() && OthersRead()
    }
  }

  // file->writePage(pageNo, page); the page is in use, so nothing is thrown.
  function WriteDisk(disk: Disk, key: Key, page: PageState): (written: Disk)
    requires key.file in disk && key.page in disk[key.file].UsedPages()
  {
    disk[key.file := WriteFilePage(disk[key.file], key.page, page).value]
  }

  // ----- eviction -----

  // Takes frame i, the clock's choice: its page leaves the table, goes to disk if dirty, and the
  // descriptor is cleared.
  function Evict(s: Pool, i: FrameId): (r: Pool)
    requires s.Consistent() && i < |s.descs|
  {
    var d := s.descs[i];
    var key := Key(d.file, d.page);
    assert s.FrameConsistent(i);
    s.(table := if d.valid then s.table - {key} else s.table,
       disk := if d.dirty then WriteDisk(s.disk, s.Spot(key), s.frames[i]) else s.disk,
       descs := s.descs[i := CLEARED])
  }

  // The descriptors after the clock has looked for a victim, and the hand on it.
  function Swept(s: Pool): (r: (Pool, Option<FrameId>))
    requires s.descs != [] ==> s.hand < |s.descs|
  {
    var c := Choose(s.descs, s.hand);
    (s.(descs := c.descs, hand := if c.victim.Some? then c.victim.value else s.hand), c.victim)
  }

  function AllocBuf(s: Pool): (r: (Pool, Option<FrameId>))
    requires s.Consistent()
  {
    SweptConsistent(s);
    var (swept, victim) := Swept(s);
    if victim.None? then (swept, None) else (Evict(swept, victim.value), victim)
  }

  lemma SweptConsistent(s: Pool)
    requires s.Consistent()
    ensures Swept(s).0.Consistent()
  {
    hide Choose, File.WellFormed, File.UsedPages;
    var r := Swept(s).0;
    SweepKeeps(s.descs, s.hand);
    forall i | 0 <= i < |r.descs|
      ensures r.FrameConsistent(i)
    {
      assert s.FrameConsistent(i);
    }
  }

  // The sweep changes reference bits of valid frames only.
  lemma SweepKeeps(descs: seq<BufDesc>, hand: nat)
    requires descs != [] ==> hand < |descs|
    ensures var c := Choose(descs, hand);
            forall i | 0 <= i < |descs| :: c.descs[i] == descs[i] || c.descs[i] == descs[i].(refbit := false)
  {
  }

  lemma EvictConsistent(s: Pool, i: FrameId)
    requires s.Consistent() && i < |s.descs|
    ensures Evict(s, i).Consistent() && |Evict(s, i).descs| == |s.descs| && Evict(s, i).descs[i] == CLEARED
    ensures Evict(s, i).disk.Keys == s.disk.Keys && Evict(s, i).aliases == s.aliases
  {
    hide File.WellFormed;
    var r := Evict(s, i);
    assert s.FrameConsistent(i);
    var d := s.descs[i];
    if d.dirty {
      WriteKeepsLists(s.disk[s.Home(d.file)], d.page, s.frames[i]);
    }
    forall j | 0 <= j < |r.descs|
      ensures r.FrameConsistent(j)
    {
      assert s.FrameConsistent(j);
    }
  }

  lemma AllocBufConsistent(s: Pool)
    requires s.Consistent()
    ensures var (r, victim) := AllocBuf(s);
            && r.Consistent()
            && r.disk.Keys == s.disk.Keys && |r.descs| == |s.descs| && r.aliases == s.aliases
            && (victim.Some? ==> victim.value < |r.descs| && r.descs[victim.value] == CLEARED)
  {
    hide Evict, Choose;
    SweptConsistent(s);
    var (swept, victim) := Swept(s);
    if victim.Some? {
      EvictConsistent(swept, victim.value);
    }
  }

  // Loads a page into a cleared frame.
  function Load(s: Pool, i: FrameId, key: Key, page: PageState): (r: Pool)
    requires i < |s.descs| == |s.frames|
  {
    s.(frames := s.frames[i := page], descs := s.descs[i := Loaded(key.file, key.page)], table := s.table[key := i])
  }

  // ----- the operations -----

  datatype PageResult = PageResult(pool: Pool, status: PoolStatus, page: PageId, frame: FrameId)

  datatype Result = Result(pool: Pool, status: PoolStatus)

  function ReadPage(s: Pool, key: Key): (r: PageResult)
    requires s.Consistent() && s.Known(key.file)
  {
    if key in s.table then
      var i := s.table[key];
      var d := s.descs[i];
      PageResult(s.(descs := s.descs[i := d.(refbit := true, pinCnt := d.pinCnt + 1)]), PoolOk, key.page, i)
    else
      AllocBufConsistent(s);
      var (q, victim) := AllocBuf(s);
      if victim.None? then PageResult(q, BufferExceeded, key.page, 0)
      else
        var read := ReadFilePage(q.disk[q.Home(key.file)], key.page);
        if read.None? then PageResult(q, InvalidPageNumber, key.page, 0)
        else PageResult(Load(q, victim.value, key, read.value), PoolOk, key.page, victim.value)
  }

  function AllocPage(s: Pool, f: FileId): (r: PageResult)
    requires s.Consistent() && s.Known(f)
  {
    AllocBufConsistent(s);
    var (q, victim) := AllocBuf(s);
    if victim.None? then PageResult(q, BufferExceeded, 0, 0)
    else
      var a := AllocatedFile(q.disk[q.Home(f)]);
      var grown := q.(disk := q.disk[q.Home(f) := a.file]);
      PageResult(Load(grown, victim.value, Key(f, a.number), a.page), PoolOk, a.number, victim.value)
  }

  function UnPinPage(s: Pool, key: Key, dirty: bool): (r: Result)
    requires s.Consistent()
  {
    if key !in s.table then Result(s, NotCached)
    else
      var i := s.table[key];
      var d := if dirty then s.descs[i].(dirty := true) else s.descs[i];
      // The dirty flag is set even when the page turns out not to be pinned.
      if d.pinCnt == 0 then Result(s.(descs := s.descs[i := d]), PageNotPinned)
      else Result(s.(descs := s.descs[i := d.(pinCnt := d.pinCnt - 1)]), PoolOk)
  }

  // The sweep of flushFile from frame i on.
  function FlushFrom(s: Pool, f: FileId, i: nat): (r: Result)
    requires s.Consistent() && i <= |s.descs|
    decreases |s.descs| - i
  {
    if i == |s.descs| then Result(s, PoolOk)
    else
      var d := s.descs[i];
      if d.valid && d.file == f then
        if d.pinCnt > 0 then Result(s, PagePinned)
        else
          EvictConsistent(s, i);
          FlushFrom(Evict(s, i), f, i + 1)
      else if !d.valid && d.file == f then Result(s, BadBuffer)
      else FlushFrom(s, f, i + 1)
  }

  function FlushFile(s: Pool, f: FileId): (r: Result)
    requires s.Consistent()
  {
    FlushFrom(s, f, 0)
  }

  // Neither the pin count nor the dirty flag is looked at.
  function DisposePage(s: Pool, key: Key): (r: Result)
    requires s.Consistent() && s.Known(key.file)
  {
    if key !in s.table then Result(s, NotCached)
    else
      var i := s.table[key];
      var q := s.(descs := s.descs[i := CLEARED], table := s.table - {key});
      var deleted := DeletedFile(q.disk[q.Home(key.file)], key.page);
      if deleted.None? then Result(q, InvalidPageNumber)
      else Result(q.(disk := q.disk[q.Home(key.file) := deleted.value]), PoolOk)
  }

  // A client changes a page through the pointer it was given.
  function WriteFrame(s: Pool, key: Key, page: PageState): (r: Pool)
    requires s.Consistent() && key in s.table
  {
    s.(frames := s.frames[s.table[key] := page])
  }

  // The write-back of the destructor, from frame i on.
  function DestroyFrom(s: Pool, i: nat): (disk: Disk)
    requires s.Consistent() && i <= |s.descs|
    decreases |s.descs| - i
  {
    if i == |s.descs| then s.disk
    else
      var d := s.descs[i];
      assert s.FrameConsistent(i);
      if d.valid && d.dirty then
        WrittenConsistent(s, i);
        DestroyFrom(s.(disk := WriteDisk(s.disk, s.Spot(Key(d.file, d.page)), s.frames[i])), i + 1)
      else DestroyFrom(s, i + 1)
  }

  lemma WrittenConsistent(s: Pool, i: FrameId)
    requires s.Consistent() && i < |s.descs| && s.descs[i].valid
    ensures s.OnDisk(Key(s.descs[i].file, s.descs[i].page))
    ensures s.(disk := WriteDisk(s.disk, s.Spot(Key(s.descs[i].file, s.descs[i].page)), s.frames[i])).Consistent()
  {
    hide File.WellFormed;
    assert s.FrameConsistent(i);
    var d := s.descs[i];
    WriteKeepsLists(s.disk[s.Home(d.file)], d.page, s.frames[i]);
    var r := s.(disk := WriteDisk(s.disk, s.Spot(Key(d.file, d.page)), s.frames[i]));
    forall j | 0 <= j < |r.descs|
      ensures r.FrameConsistent(j)
    {
      assert s.FrameConsistent(j);
    }
  }
}
