// What each operation of the buffer manager does to frames, hand, table and disk: all of it, and nothing else.
module BufferEffects {
  import opened Types
  import opened SlottedPage
  import opened Files
  import opened HashTable
  import opened Clock
  import opened ClockMachine
  import opened BufferPool
  import opened BufferConsistency
  import opened BufferCorrectness

  function MarkOf(d: BufDesc): Mark {
    Mark(d.valid, d.pinCnt, d.refbit)
  }

  // The pool as the clock sees it.
  function ClockOf(s: Pool): ClockState {
    ClockState(s.hand, seq(|s.descs|, i requires 0 <= i < |s.descs| => MarkOf(s.descs[i])))
  }

  function KeyIn(s: Pool, i: FrameId): Key
    requires i < |s.descs|
  {
    Key(s.descs[i].file, s.descs[i].page)
  }

  // A page of a file on disk, in use or not.
  function PageOn(disk: Disk, spot: Key): Option<PageState> {
    if spot.file in disk && spot.page in disk[spot.file].Pages() then Some(disk[spot.file].Pages()[spot.page]) else None
  }

  // The disk has the page of frame i as the frame has it.
  ghost predicate HoldsFrame(s: Pool, disk: Disk, i: FrameId)
    requires i < |s.descs| == |s.frames|
  {
    var spot := s.Spot(KeyIn(s, i));
    && PageOn(disk, spot).Some?
    && Shown(s.IsBlob(s.descs[i].file), PageOn(disk, spot).value) == s.FrameFace(i)
  }

  // Headers, kinds and lists of all files are the same.
  ghost predicate SameFiles(s: Pool, disk: Disk) {
    disk.Keys == s.disk.Keys && forall f | f in s.disk :: SameLists(s.disk, disk, f)
  }

  // The page of frame i is written if it is marked dirty, and nothing else.
  ghost predicate WrittenBack(s: Pool, disk: Disk, i: FrameId)
    requires i < |s.descs| == |s.frames|
  {
    && SameFiles(s, disk)
    && (s.descs[i].dirty ==> HoldsFrame(s, disk, i))
    && forall spot | !s.descs[i].dirty || spot != s.Spot(KeyIn(s, i)) :: PageOn(disk, spot) == PageOn(s.disk, spot)
  }

  // Frame v is emptied: its page leaves the table and is written if it is dirty.
  ghost predicate Emptied(s: Pool, r: Pool, v: FrameId) {
    && v < |s.descs| == |s.frames| && r.frames == s.frames && r.aliases == s.aliases
    && |r.descs| == |s.descs| && r.descs[v] == CLEARED
    && (forall key :: key in r.table <==> key in s.table && s.table[key] != v)
    && (forall key | key in r.table && key in s.table :: r.table[key] == s.table[key])
    && WrittenBack(s, r.disk, v)
  }

  // The clock takes frame v: the frame is emptied, the hand stays on it, and the frames passed lose their bits.
  ghost predicate Taken(s: Pool, r: Pool, v: FrameId) {
    && Emptied(s, r, v) && ClockOf(s).IsVictim(v) && r.hand == v
    && forall i | 0 <= i < |s.descs| && i != v ::
         r.descs[i] == if ClockOf(s).Passes(v, i) then s.descs[i].(refbit := false) else s.descs[i]
  }

  // There is no frame to be taken: all frames lose their bits.
  ghost predicate Refused(s: Pool, r: Pool) {
    && ClockOf(s).AllPinned() && r == s.(descs := r.descs) && |r.descs| == |s.descs|
    && forall i | 0 <= i < |s.descs| :: r.descs[i] == s.descs[i].(refbit := false)
  }

  // A page is put into an empty frame, pinned once, with its bit set and not marked dirty.
  ghost predicate Entered(q: Pool, r: Pool, v: FrameId, key: Key, page: PageState) {
    && v < |q.descs| == |q.frames| && r.hand == q.hand && r.aliases == q.aliases
    && r.frames == q.frames[v := page]
    && r.descs == q.descs[v := BufDesc(key.file, key.page, 1, false, true, true)]
    && key !in q.table && r.table == q.table[key := v]
  }

  lemma MarksAre(s: Pool)
    ensures |ClockOf(s).marks| == |s.descs| && ClockOf(s).hand == s.hand
    ensures forall i | 0 <= i < |s.descs| :: ClockOf(s).marks[i] == MarkOf(s.descs[i])
    ensures ClockOf(s).AllPinned() <==> AllPinned(s)
  {
    assert forall i | 0 <= i < |s.descs| ::
             ClockOf(s).marks[i].Evictable() == (!s.descs[i].valid || s.descs[i].pinCnt == 0);
  }

  // ----- taking a frame -----

  lemma WriteExact(s: Pool, i: FrameId)
    requires s.Consistent() && i < |s.descs| && s.descs[i].valid
    ensures s.OnDisk(KeyIn(s, i))
    ensures var disk := WriteDisk(s.disk, s.Spot(KeyIn(s, i)), s.frames[i]);
            && SameFiles(s, disk) && HoldsFrame(s, disk, i)
            && forall spot | spot != s.Spot(KeyIn(s, i)) :: PageOn(disk, spot) == PageOn(s.disk, spot)
  {
    hide File.WellFormed, File.UsedPages, Shown, Pool.Consistent;
    Shape(s);
    CachedInFrame(s, i);
    var d := s.descs[i];
    WriteKeepsLists(s.disk[s.Home(d.file)], d.page, s.frames[i]);
  }

  lemma CachedInFrame(s: Pool, i: FrameId)
    requires s.Consistent() && i < |s.descs| && s.descs[i].valid
    ensures var key := KeyIn(s, i);
            && key in s.table && s.table[key] == i && s.OnDisk(key) && s.Belongs(key, s.frames[i])
            && s.disk[s.Home(key.file)].WellFormed()
  {
    hide File.WellFormed, File.UsedPages;
    assert s.FrameConsistent(i);
  }

  lemma EvictExact(s: Pool, i: FrameId)
    requires s.Consistent() && i < |s.descs|
    ensures Emptied(s, Evict(s, i), i) && Evict(s, i).hand == s.hand
    ensures Evict(s, i).descs == s.descs[i := CLEARED]
  {
    hide File.WellFormed, File.UsedPages, Shown, WriteDisk, SameLists, HoldsFrame, Pool.FrameConsistent;
    Shape(s);
    EvictDisk(s, i);
    forall key | key in s.table
      ensures s.table[key] == i ==> s.descs[i].valid && key == KeyIn(s, i)
    {
      assert s.Caches(s.table[key], key);
    }
    if s.descs[i].dirty {
      WriteExact(s, i);
    }
  }

  lemma TakeExact(s: Pool)
    requires s.Consistent()
    ensures var (r, victim) := AllocBuf(s);
            if victim.Some? then Taken(s, r, victim.value) else Refused(s, r)
  {
    hide File.WellFormed, File.UsedPages, Choose, Evict, Emptied, ClockState.IsVictim, ClockState.Passes,
         ClockState.AllPinned;
    SweptConsistent(s);
    SweptExact(s);
    var (q, victim) := Swept(s);
    if victim.Some? {
      EvictExact(q, victim.value);
      EmptiedAfterSweep(s, q, Evict(q, victim.value), victim.value);
    }
  }

  // The sweep, which looks at reference bits only.
  lemma SweptExact(s: Pool)
    requires s.Consistent()
    ensures var (q, victim) := Swept(s);
            && q == s.(descs := q.descs, hand := q.hand) && |q.descs| == |s.descs|
            && (forall i | 0 <= i < |s.descs| :: q.descs[i] == s.descs[i] || q.descs[i] == s.descs[i].(refbit := false))
            && (victim.None? ==> Refused(s, q))
            && (victim.Some? ==>
                  && victim.value < |s.descs| && ClockOf(s).IsVictim(victim.value) && q.hand == victim.value
                  && forall i | 0 <= i < |s.descs| && i != victim.value ::
                       q.descs[i] == if ClockOf(s).Passes(victim.value, i) then s.descs[i].(refbit := false)
                                     else s.descs[i])
  {
    hide Choose, Pool.Consistent, File.WellFormed, ClockState.AllPinned, ClockState.IsVictim, ClockState.Passes,
         ClockOf;
    Shape(s);
    MarksAre(s);
    SweepKeeps(s.descs, s.hand);
    NoVictimIffAllPinned(s.descs, s.hand);
    SearchedAll(s.descs, s.hand);
    VictimOnMarks(s.descs, ClockOf(s));
  }

  // The search of the buffer manager is that of the machine.
  lemma VictimOnMarks(descs: seq<BufDesc>, c: ClockState)
    requires |c.marks| == |descs| && forall i | 0 <= i < |descs| :: c.marks[i] == MarkOf(descs[i])
    requires descs != [] ==> c.hand < |descs|
    ensures var found := Choose(descs, c.hand);
            found.victim.Some? ==>
              var v := found.victim.value;
              && c.IsVictim(v)
              && forall i | 0 <= i < |descs| && i != v ::
                   found.descs[i] == if c.Passes(v, i) then descs[i].(refbit := false) else descs[i]
  {
    hide Choose;
    assert forall i | 0 <= i < |descs| :: c.marks[i].Idle() == descs[i].Idle();
    assert forall i | 0 <= i < |descs| :: c.marks[i].Evictable() == descs[i].Evictable();
    if Choose(descs, c.hand).victim.Some? {
      VictimIsFirst(descs, c.hand);
      var v := Choose(descs, c.hand).victim.value;
      forall i | 0 <= i < |descs| && StepsTo(c.hand, i, |descs|) == StepsTo(c.hand, v, |descs|)
        ensures i == v
      {
        assert FrameAt(c.hand, StepsTo(c.hand, i, |descs|), |descs|) == i;
      }
    }
  }

  lemma EmptiedAfterSweep(s: Pool, q: Pool, r: Pool, v: FrameId)
    requires q == s.(descs := q.descs, hand := q.hand) && |q.descs| == |s.descs| && v < |s.descs|
    requires q.descs[v] == s.descs[v] || q.descs[v] == s.descs[v].(refbit := false)
    requires Emptied(q, r, v)
    ensures Emptied(s, r, v)
  {
    hide File.UsedPages, Shown, SameLists;
  }

  // ----- reading and unpinning -----

  // A page that is not cached is read into the frame taken for it; if the file has no such page, the frame stays empty.
  ghost predicate ReadInto(s: Pool, q: Pool, r: PageResult, key: Key) {
    && Taken(s, q, q.hand)
    && if s.OnDisk(key) then
         && r.status == PoolOk && r.frame == q.hand && r.pool.disk == q.disk
         && q.OnDisk(key) && Entered(q, r.pool, q.hand, key, q.DiskPage(key))
       else r.status == InvalidPageNumber && r.pool == q
  }

  // A cached page gains a pin, and its frame the reference bit. Any other page needs a frame.
  lemma ReadPageExact(s: Pool, key: Key)
    requires s.Consistent() && s.Known(key.file)
    ensures var r := ReadPage(s, key);
            if key in s.table then
              var i := s.table[key];
              && r.status == PoolOk && r.frame == i < |s.descs|
              && r.pool == s.(descs := s.descs[i := s.descs[i].(refbit := true, pinCnt := s.descs[i].pinCnt + 1)])
            else if AllPinned(s) then r.status == BufferExceeded && Refused(s, r.pool)
            else exists q :: ReadInto(s, q, r, key)
  {
    hide File.WellFormed, File.UsedPages, Shown, AllocBuf, Refused, Taken, AllPinned;
    CachedIsOnDisk(s, key);
    if key !in s.table {
      AllocBufConsistent(s);
      AllocBufKeeps(s);
      TakeExact(s);
      var (q, victim) := AllocBuf(s);
      ReadFromDisk(q, key);
      if victim.Some? {
        TakenHand(s, q, victim.value, key);
        assert ReadInto(s, q, ReadPage(s, key), key);
      }
    }
  }

  lemma TakenHand(s: Pool, q: Pool, v: FrameId, key: Key)
    requires Taken(s, q, v)
    ensures q.hand == v < |q.descs| && |q.frames| == |q.descs| && (key !in s.table ==> key !in q.table)
  {
  }

  // The dirty flag is set even if the page is not pinned; a pin is given back if there is one.
  lemma UnPinPageExact(s: Pool, key: Key, dirty: bool)
    requires s.Consistent()
    ensures var r := UnPinPage(s, key, dirty);
            if key !in s.table then r == Result(s, NotCached)
            else
              var i := s.table[key];
              && i < |s.descs| && r.status == (if s.descs[i].pinCnt == 0 then PageNotPinned else PoolOk)
              && r.pool == s.(descs := r.pool.descs) && |r.pool.descs| == |s.descs|
              && (forall j | 0 <= j < |s.descs| && j != i :: r.pool.descs[j] == s.descs[j])
              && var pins := if s.descs[i].pinCnt == 0 then 0 else s.descs[i].pinCnt - 1;
                 r.pool.descs[i] ==
                 BufDesc(key.file, key.page, pins, s.descs[i].dirty || dirty, true, s.descs[i].refbit)
  {
    hide File.WellFormed, File.UsedPages;
    CachedIsOnDisk(s, key);
    if key in s.table {
      assert s.Caches(s.table[key], key);
    }
  }

  // ----- allocating and disposing of pages -----

  // The new page is put into the frame taken for it, as the file hands it out.
  ghost predicate AllocatedInto(s: Pool, q: Pool, r: PageResult, f: FileId) {
    && Taken(s, q, q.hand) && q.Known(f) && q.disk[q.Home(f)].WellFormed()
    && var a := AllocatedFile(q.disk[q.Home(f)]);
       && r.status == PoolOk && r.page == a.number && r.frame == q.hand
       && r.pool.disk == q.disk[q.Home(f) := a.file]
       && Entered(q, r.pool, q.hand, Key(f, a.number), a.page)
  }

  lemma AllocPageExact(s: Pool, f: FileId)
    requires s.Consistent() && s.Known(f)
    ensures var r := AllocPage(s, f);
            if AllPinned(s) then r.status == BufferExceeded && Refused(s, r.pool)
            else exists q :: AllocatedInto(s, q, r, f)
  {
    hide File.WellFormed, File.UsedPages, AllocBuf, Refused, Taken, AllocatedFile, AllPinned, Pool.Consistent;
    AllocPageIs(s, f);
    AllocPageConsistentIff(s, f);
    AllocBufKeeps(s);
    TakeExact(s);
    var (q, victim) := AllocBuf(s);
    if victim.Some? {
      TakenHand(s, q, victim.value, Key(f, 0));
      assert AllocatedInto(s, q, AllocPage(s, f), f);
    }
  }

  // The frame is emptied and nothing is written; the file is what deletion makes of it, or as it was if it refuses.
  lemma DisposePageExact(s: Pool, key: Key)
    requires s.Consistent() && s.Known(key.file)
    ensures var r := DisposePage(s, key);
            if key !in s.table then r == Result(s, NotCached)
            else
              var i, home := s.table[key], s.Home(key.file);
              && i < |s.descs| && s.disk[home].WellFormed()
              && r.status == (if s.IsBlob(key.file) then InvalidPageNumber else PoolOk)
              && (s.IsBlob(key.file) || DeletedFile(s.disk[home], key.page).Some?)
              && r.pool == s.(descs := s.descs[i := CLEARED], table := s.table - {key},
                              disk := if s.IsBlob(key.file) then s.disk
                                      else s.disk[home := DeletedFile(s.disk[home], key.page).value])
  {
    hide File.WellFormed, File.UsedPages, DeletedFile;
    CachedIsOnDisk(s, key);
    DeleteCorrect(s.disk[s.Home(key.file)], key.page);
  }

  // ----- flushing -----

  // The first pinned frame of the file from frame i on, or the number of frames.
  ghost function StopsAt(s: Pool, f: FileId, i: nat): (k: nat)
    requires i <= |s.descs|
    ensures i <= k <= |s.descs|
    ensures k < |s.descs| ==> s.descs[k].file == f && s.descs[k].pinCnt > 0
    ensures forall j | i <= j < k :: s.descs[j].file == f ==> s.descs[j].pinCnt == 0
    decreases |s.descs| - i
  {
    if i == |s.descs| || (s.descs[i].file == f && s.descs[i].pinCnt > 0) then i else StopsAt(s, f, i + 1)
  }

  predicate OfFile(s: Pool, f: FileId, j: FrameId) {
    j < |s.descs| && s.descs[j].valid && s.descs[j].file == f
  }

  // The frames of file f from i up to k are emptied, and written if dirty. Nothing else happens.
  ghost predicate Flushed(s: Pool, r: Pool, f: FileId, i: nat, k: nat) {
    && r.hand == s.hand && r.frames == s.frames && r.aliases == s.aliases && |r.descs| == |s.descs| == |s.frames|
    && (forall j | 0 <= j < |s.descs| ::
          r.descs[j] == if i <= j < k && OfFile(s, f, j) then CLEARED else s.descs[j])
    && (forall key: Key :: key in r.table <==> key in s.table && !(key.file == f && i <= s.table[key] < k))
    && (forall key | key in r.table && key in s.table :: r.table[key] == s.table[key])
    && SameFiles(s, r.disk)
    && (forall j | i <= j < k && OfFile(s, f, j) && s.descs[j].dirty :: HoldsFrame(s, r.disk, j))
    && (forall spot | !(exists j | i <= j < k :: OfFile(s, f, j) && s.descs[j].dirty && s.Spot(KeyIn(s, j)) == spot) ::
          PageOn(r.disk, spot) == PageOn(s.disk, spot))
  }

  lemma NothingFlushed(s: Pool, f: FileId, i: nat)
    requires s.Consistent()
    ensures Flushed(s, s, f, i, i)
  {
    hide File.WellFormed, File.UsedPages, HoldsFrame;
    Shape(s);
  }

  // A frame that is not of the file does not matter.
  lemma FlushPassesOver(s: Pool, r: Pool, f: FileId, i: nat, k: nat)
    requires s.Consistent() && i < |s.descs| && !OfFile(s, f, i) && Flushed(s, r, f, i + 1, k) && i < k
    ensures Flushed(s, r, f, i, k)
  {
    hide File.WellFormed, File.UsedPages, HoldsFrame, SameFiles;
    forall key | key in s.table && s.table[key] == i
      ensures key.file != f
    {
      assert s.Caches(s.table[key], key);
    }
    forall spot | !(exists j | i <= j < k :: OfFile(s, f, j) && s.descs[j].dirty && s.Spot(KeyIn(s, j)) == spot)
      ensures PageOn(r.disk, spot) == PageOn(s.disk, spot)
    {
      assert !(exists j | i + 1 <= j < k :: OfFile(s, f, j) && s.descs[j].dirty && s.Spot(KeyIn(s, j)) == spot);
    }
  }

  // Pages of one object in different frames are different pages on disk.
  lemma DifferentSpots(s: Pool, f: FileId, i: FrameId, j: FrameId)
    requires s.Consistent() && OfFile(s, f, i) && OfFile(s, f, j) && i != j
    ensures s.Spot(KeyIn(s, i)) != s.Spot(KeyIn(s, j))
  {
    CachedInFrame(s, i);
    CachedInFrame(s, j);
  }

  lemma FlushOneMore(s: Pool, q: Pool, r: Pool, f: FileId, i: nat, k: nat)
    requires s.Consistent() && OfFile(s, f, i) && Emptied(s, q, i) && q.hand == s.hand
    requires q.descs == s.descs[i := CLEARED]
    requires Flushed(q, r, f, i + 1, k) && i < k
    ensures Flushed(s, r, f, i, k)
  {
    hide File.WellFormed, File.UsedPages, HoldsFrame, Pool.Consistent, SameFiles;
    forall key | key in s.table && s.table[key] == i
      ensures key.file == f
    {
      CachedUnder(s, key);
    }
    FlushOnDisk(s, q, r, f, i, k);
    forall j | i <= j < k && OfFile(s, f, j) && s.descs[j].dirty
      ensures HoldsFrame(s, r.disk, j)
    {
      assert OfFile(s, f, j) && s.descs[j].dirty;
    }
  }

  lemma CachedUnder(s: Pool, key: Key)
    requires s.Consistent() && key in s.table
    ensures s.Caches(s.table[key], key)
  {
  }

  lemma FlushOnDisk(s: Pool, q: Pool, r: Pool, f: FileId, i: nat, k: nat)
    requires s.Consistent() && OfFile(s, f, i) && Emptied(s, q, i) && q.descs == s.descs[i := CLEARED]
    requires Flushed(q, r, f, i + 1, k) && i < k
    ensures SameFiles(s, r.disk)
    ensures forall j | i <= j < k && OfFile(s, f, j) && s.descs[j].dirty :: HoldsFrame(s, r.disk, j)
    ensures forall spot | !(exists j | i <= j < k ::
                              OfFile(s, f, j) && s.descs[j].dirty && s.Spot(KeyIn(s, j)) == spot) ::
              PageOn(r.disk, spot) == PageOn(s.disk, spot)
  {
    hide File.WellFormed, File.UsedPages, HoldsFrame, Shown;
    SameFilesTransitive(s, q, r.disk);
    forall j | i < j < k && OfFile(s, f, j)
      ensures OfFile(q, f, j) && s.Spot(KeyIn(s, j)) != s.Spot(KeyIn(s, i))
      ensures HoldsFrame(q, r.disk, j) ==> HoldsFrame(s, r.disk, j)
    {
      DifferentSpots(s, f, i, j);
      SameHolding(s, q, r.disk, j);
    }
    var spot := s.Spot(KeyIn(s, i));
    assert PageOn(r.disk, spot) == PageOn(q.disk, spot);
    SameFrameHeld(s, q.disk, r.disk, i);
  }

  lemma SameFilesTransitive(s: Pool, q: Pool, disk: Disk)
    requires SameFiles(s, q.disk) && SameFiles(q, disk)
    ensures SameFiles(s, disk)
  {
  }

  lemma SameHolding(s: Pool, q: Pool, disk: Disk, j: FrameId)
    requires j < |s.descs| == |q.descs| == |s.frames| == |q.frames| && q.descs[j] == s.descs[j] && q.frames == s.frames
    requires q.aliases == s.aliases && SameFiles(s, q.disk)
    ensures HoldsFrame(q, disk, j) ==> HoldsFrame(s, disk, j)
  {
    hide Shown;
    assert q.IsBlob(s.descs[j].file) == s.IsBlob(s.descs[j].file);
  }

  lemma SameFrameHeld(s: Pool, a: Disk, b: Disk, i: FrameId)
    requires i < |s.descs| == |s.frames| && PageOn(b, s.Spot(KeyIn(s, i))) == PageOn(a, s.Spot(KeyIn(s, i)))
    ensures HoldsFrame(s, a, i) ==> HoldsFrame(s, b, i)
  {
  }

  lemma {:induction false} SameStop(s: Pool, q: Pool, f: FileId, i: nat)
    requires i <= |s.descs| == |q.descs| && forall j | i <= j < |s.descs| :: q.descs[j] == s.descs[j]
    ensures StopsAt(q, f, i) == StopsAt(s, f, i)
    decreases |s.descs| - i
  {
    if i < |s.descs| {
      SameStop(s, q, f, i + 1);
    }
  }

  lemma {:induction false} FlushFromExact(s: Pool, f: FileId, i: nat)
    requires s.Consistent() && i <= |s.descs| && f != 0
    ensures var r, k := FlushFrom(s, f, i), StopsAt(s, f, i);
            && Flushed(s, r.pool, f, i, k)
            && r.status == if k < |s.descs| then PagePinned else PoolOk
    decreases |s.descs| - i
  {
    hide File.WellFormed, File.UsedPages, Evict, Flushed, Emptied, Pool.Consistent;
    if i == |s.descs| {
      NothingFlushed(s, f, i);
    } else {
      FrameState(s, i);
      if OfFile(s, f, i) && s.descs[i].pinCnt > 0 {
        NothingFlushed(s, f, i);
      } else if OfFile(s, f, i) {
        var q := Evict(s, i);
        EvictExact(s, i);
        EvictConsistent(s, i);
        SameStop(s, q, f, i + 1);
        FlushFromExact(q, f, i + 1);
        FlushOneMore(s, q, FlushFrom(q, f, i + 1).pool, f, i, StopsAt(s, f, i));
      } else {
        FlushFromExact(s, f, i + 1);
        FlushPassesOver(s, FlushFrom(s, f, i + 1).pool, f, i, StopsAt(s, f, i));
      }
    }
  }

  lemma FrameState(s: Pool, i: FrameId)
    requires s.Consistent() && i < |s.descs|
    ensures !s.descs[i].valid ==> s.descs[i] == CLEARED
  {
    assert s.FrameConsistent(i);
  }

  // A flush empties the frames of the file up to the first one that is pinned, and stops there: the others are as they
  // were. Without a pinned one it empties all.
  lemma FlushFileExact(s: Pool, f: FileId)
    requires s.Consistent() && f != 0
    ensures var r, k := FlushFile(s, f), StopsAt(s, f, 0);
            && Flushed(s, r.pool, f, 0, k)
            && r.status == if k < |s.descs| then PagePinned else PoolOk
  {
    FlushFromExact(s, f, 0);
  }

  // What has been flushed is on disk as clients saw it, even if the flush stops.
  lemma FlushedPages(s: Pool, f: FileId)
    requires s.Inv() && f != 0 && f !in s.aliases
    ensures var r := FlushFile(s, f).pool;
            forall key: Key | key.file == f && key in s.table && s.table[key] < StopsAt(s, f, 0) ::
              key !in r.table && r.OnDisk(key) && s.View(key) == Some(r.DiskFace(key))
  {
    hide File.WellFormed, File.UsedPages, Shown, FlushFile;
    FlushFileExact(s, f);
    FlushFileCorrect(s, f);
    var r := FlushFile(s, f).pool;
    forall key: Key | key.file == f && key in s.table && s.table[key] < StopsAt(s, f, 0)
      ensures key !in r.table && r.OnDisk(key) && s.View(key) == Some(r.DiskFace(key))
    {
      CachedIsOnDisk(s, key);
      CachedIsOnDisk(r, key);
      assert r.View(key) == s.View(key);
    }
  }

  // ----- the destructor -----

  // The last dirty frame from i on with the given page on disk.
  ghost predicate LastDirty(s: Pool, i: nat, j: FrameId) {
    && i <= j < |s.descs| && s.descs[j].valid && s.descs[j].dirty
    && forall k | j < k < |s.descs| && s.descs[k].valid && s.descs[k].dirty ::
         s.Spot(KeyIn(s, k)) != s.Spot(KeyIn(s, j))
  }

  ghost predicate DirtyAt(s: Pool, i: nat, spot: Key) {
    exists j | i <= j < |s.descs| :: s.descs[j].valid && s.descs[j].dirty && s.Spot(KeyIn(s, j)) == spot
  }

  // The pages of dirty frames are written, in the order of the frames, and no others.
  lemma {:induction false} DestroyExact(s: Pool, i: nat)
    requires s.Consistent() && i <= |s.descs|
    ensures |s.frames| == |s.descs|
    ensures var disk := DestroyFrom(s, i);
            && SameFiles(s, disk)
            && (forall j: FrameId | LastDirty(s, i, j) :: HoldsFrame(s, disk, j))
            && (forall spot | !DirtyAt(s, i, spot) :: PageOn(disk, spot) == PageOn(s.disk, spot))
    decreases |s.descs| - i
  {
    hide File.WellFormed, File.UsedPages, Shown, HoldsFrame, WriteDisk, SameFiles;
    Shape(s);
    SameFilesReflexive(s);
    if i < |s.descs| {
      if s.descs[i].valid && s.descs[i].dirty {
        WrittenConsistent(s, i);
        WriteExact(s, i);
        var w := s.(disk := WriteDisk(s.disk, s.Spot(KeyIn(s, i)), s.frames[i]));
        var disk := DestroyFrom(w, i + 1);
        DestroyExact(w, i + 1);
        SameFilesTransitive(s, w, disk);
        forall j: FrameId | LastDirty(s, i, j)
          ensures HoldsFrame(s, disk, j)
        {
          if j > i {
            assert LastDirty(w, i + 1, j);
            SameHolding(s, w, disk, j);
          } else {
            assert !DirtyAt(w, i + 1, s.Spot(KeyIn(s, i)));
            SameFrameHeld(s, w.disk, disk, i);
          }
        }
        forall spot | !DirtyAt(s, i, spot)
          ensures PageOn(disk, spot) == PageOn(s.disk, spot)
        {
          assert !DirtyAt(w, i + 1, spot);
        }
      } else {
        DestroyExact(s, i + 1);
        forall j: FrameId | LastDirty(s, i, j)
          ensures LastDirty(s, i + 1, j)
        {
        }
        forall spot | !DirtyAt(s, i, spot)
          ensures !DirtyAt(s, i + 1, spot)
        {
        }
      }
    }
  }

  lemma SameFilesReflexive(s: Pool)
    requires s.Consistent()
    ensures SameFiles(s, s.disk)
  {
    Shape(s);
  }
}
