// The BufMgr class: a table of frame descriptors, the frames, a hash table and the disk, changed in place
// (buffer.cpp, buffer.h).
module BufferManager {
  import opened Types
  import opened SlottedPage
  import opened Files
  import opened HashTable
  import opened Clock
  import opened BufferPool
  import opened BufferConsistency
  import opened BufferRuns

  // Where the hand is after s advances, at most two times around.
  function HandAfter(hand: nat, s: nat, n: nat): nat
    requires hand < n && s <= 2 * n
  {
    if s == 0 then hand else if s <= n then FrameAt(hand, s - 1, n) else FrameAt(hand, s - n - 1, n)
  }

  // How far the sweeps have come without finding a victim.
  ghost predicate Searching(before: seq<BufDesc>, hand: nat, s: nat, now: seq<BufDesc>)
    requires hand < |before| && s <= 2 * |before|
  {
    var n := |before|;
    && now == ClearedTo(before, hand, if s <= n then s else n)
    && (if s <= n then s <= FirstTaken(before, hand, false, 0)
        else n == FirstTaken(before, hand, false, 0) && s - n <= FirstTaken(before, hand, true, 0))
  }

  function KeyOf(d: BufDesc): Key {
    Key(d.file, d.page)
  }

  class BufMgr {
    var clockHand: nat
    const numBufs: nat
    const hashTable: BufHashTbl
    const bufDescTable: array<BufDesc>
    const bufPool: array<PageState>
    // The files on disk, each by its first File object, and the objects opened on a file besides.
    var disk: Disk
    var aliases: map<FileId, FileId>

    ghost function State(): Pool
      reads this, hashTable, bufDescTable, bufPool
    {
      Pool(clockHand, bufDescTable[..], bufPool[..], hashTable.entries, disk, aliases)
    }

    function Home(f: FileId): FileId
      reads this
    {
      HomeIn(aliases, f)
    }

    ghost predicate Valid()
      reads this, bufDescTable, bufPool, hashTable, hashTable.ht, hashTable.nodes
    {
      && bufDescTable.Length == bufPool.Length == numBufs && 2 * numBufs < WORD
      && hashTable.Valid()
      && State().Consistent()
    }

    // The size of the hash table is computed in 32-bit ints, which bounds the number of frames.
    constructor (bufs: nat, disk: Disk)
      requires bufs * 6 / 5 * 2 < WORD / 2
      requires forall f | f in disk :: f != 0 && disk[f].WellFormed()
      ensures Valid() && State().Inv() && numBufs == bufs && this.disk == disk && aliases == map[]
      ensures fresh(hashTable) && fresh(hashTable.ht) && hashTable.nodes == {} && fresh(bufDescTable) && fresh(bufPool)
      ensures hashTable.entries == map[] && bufDescTable[..] == seq(bufs, _ => CLEARED)
      ensures hashTable.size == bufs * 6 / 5 + 1
      ensures clockHand == (if bufs == 0 then WORD - 1 else bufs - 1) && bufPool[..] == seq(bufs, _ => NewPage())
    {
      hide Pool.Consistent, Pool.Coherent, Pool.OthersRead, File.WellFormed;
      numBufs := bufs;
      bufDescTable := new BufDesc[bufs](_ => CLEARED);
      bufPool := new PageState[bufs](_ => NewPage());
      hashTable := new BufHashTbl(bufs * 6 / 5 * 2 / 2 + 1);
      clockHand := (bufs + WORD - 1) % WORD;
      this.disk := disk;
      aliases := map[];
      new;
      assert bufDescTable[..] == seq(bufs, _ => CLEARED) && bufPool[..] == seq(bufs, _ => NewPage());
      NewPool(bufs, clockHand, bufPool[..], disk);
    }

    method AdvanceClock()
      requires 0 < numBufs && clockHand < numBufs
      modifies this`clockHand
      ensures clockHand == FrameAt(old(clockHand), 0, numBufs)
    {
      clockHand := (clockHand + 1) % numBufs;
    }

    // The loop of allocBuf. The removal from the hash table that comes just before the loop is left with a
    // valid victim is done by the caller.
    method Search() returns (numScanned: nat, found: bool)
      requires Valid()
      modifies this`clockHand, bufDescTable
      ensures var (swept, victim) := Swept(old(State()));
              && State() == swept
              && (victim.Some? ==> victim.value == clockHand < numBufs)
              && found == (victim.Some? && swept.descs[clockHand].valid)
              && (!found && numScanned >= 2 * numBufs <==> victim.None?)
    {
      hide Pool.Consistent, ClearedTo, FirstTaken, Choose;
      ghost var n, before, hand := numBufs, bufDescTable[..], clockHand;
      StartSearch(State());
      numScanned := 0;
      found := false;
      ghost var taken := false;
      while numScanned < 2 * numBufs
        invariant numScanned <= 2 * n && !found && !taken
        invariant n > 0 ==> hand < n && clockHand == HandAfter(hand, numScanned, n)
        invariant n > 0 ==> Searching(before, hand, numScanned, bufDescTable[..])
        invariant n == 0 ==> clockHand == hand
      {
        ghost var s := numScanned;
        AdvanceClock();
        numScanned := numScanned + 1;
        LookAt(before, hand, s, bufDescTable[..], clockHand);
        taken := bufDescTable[clockHand].Idle();
        if !bufDescTable[clockHand].valid {
          break;
        }
        if !bufDescTable[clockHand].refbit {
          if bufDescTable[clockHand].pinCnt == 0 {
            found := true;
            break;
          }
        } else {
          bufDescTable[clockHand] := bufDescTable[clockHand].(refbit := false);
        }
      }
      if n > 0 && !taken {
        SearchFails(before, hand, bufDescTable[..]);
      }
    }

    method AllocBuf() returns (status: PoolStatus, frame: FrameId)
      requires Valid()
      modifies this, bufDescTable, hashTable, hashTable.ht, hashTable.nodes
      ensures Valid() && hashTable.nodes == old(hashTable.nodes)
      ensures (State(), if status == PoolOk then Some(frame) else None) == BufferPool.AllocBuf(old(State()))
      ensures status == PoolOk || status == BufferExceeded
    {
      hide Pool.Consistent, Swept, WriteDisk, BufHashTbl.Valid;
      ghost var s := State();
      AllocBufFacts(s);
      frame := 0;
      var numScanned, found := Search();
      VictimFacts(State(), clockHand);
      if found {
        var _ := hashTable.Remove(KeyOf(bufDescTable[clockHand]));
      }
      if !found && numScanned >= 2 * numBufs {
        return BufferExceeded, frame;
      }
      if bufDescTable[clockHand].dirty {
        WriteBack(clockHand);
      }
      bufDescTable[clockHand] := CLEARED;
      assert State() == BufferPool.AllocBuf(s).0;
      return PoolOk, clockHand;
    }

    // The Page pointer handed out is the frame number.
    method ReadPage(file: FileId, pageNo: PageId) returns (status: PoolStatus, page: FrameId)
      requires Valid() && Home(file) in disk
      modifies this, bufDescTable, bufPool, hashTable, hashTable.ht, hashTable.nodes
      ensures Valid() && fresh(hashTable.nodes - old(hashTable.nodes))
      ensures PageResult(State(), status, pageNo, page) == BufferPool.ReadPage(old(State()), Key(file, pageNo))
    {
      hide Pool.Consistent, BufferPool.AllocBuf, BufHashTbl.Valid;
      ghost var s := State();
      var key := Key(file, pageNo);
      ReadPageFacts(s, key);
      var found, frameNo := hashTable.Lookup(key);
      if found == HashOk {
        var d := bufDescTable[frameNo];
        bufDescTable[frameNo] := d.(refbit := true, pinCnt := d.pinCnt + 1);
        return PoolOk, frameNo;
      }
      status, page := AllocBuf();
      if status == BufferExceeded {
        return BufferExceeded, 0;
      }
      var read := ReadFilePage(disk[Home(file)], pageNo);
      if read.None? {
        return InvalidPageNumber, 0;
      }
      LoadFrame(page, key, read.value);
    }

    // Fills a frame and enters it in the hash table.
    method LoadFrame(frame: FrameId, key: Key, page: PageState)
      requires frame < bufDescTable.Length == bufPool.Length && hashTable.Valid() && key !in hashTable.entries
      modifies bufDescTable, bufPool, hashTable, hashTable.ht
      ensures hashTable.Valid()
      ensures hashTable.nodes >= old(hashTable.nodes) && fresh(hashTable.nodes - old(hashTable.nodes))
      ensures State() == Load(old(State()), frame, key, page)
    {
      hide BufHashTbl.Valid;
      bufPool[frame] := page;
      bufDescTable[frame] := Loaded(key.file, key.page);
      var inserted := hashTable.Insert(key, frame);
      assert inserted == HashOk;
    }

    method AllocPage(file: FileId) returns (status: PoolStatus, pageNo: PageId, page: FrameId)
      requires Valid() && Home(file) in disk
      modifies this, bufDescTable, bufPool, hashTable, hashTable.ht, hashTable.nodes
      ensures Valid() <==> status != PoolOk || MayAllocate(old(disk[Home(file)]))
      ensures hashTable.Valid() && fresh(hashTable.nodes - old(hashTable.nodes))
      ensures PageResult(State(), status, pageNo, page) == BufferPool.AllocPage(old(State()), file)
    {
      hide Pool.Consistent, BufferPool.AllocBuf, BufHashTbl.Valid, AllocatedFile;
      ghost var s := State();
      AllocPageConsistentIff(s, file);
      pageNo := 0;
      status, page := AllocBuf();
      if status == BufferExceeded {
        return BufferExceeded, 0, 0;
      }
      var a := AllocatedFile(disk[Home(file)]);
      pageNo := a.number;
      disk := disk[Home(file) := a.file];
      LoadFrame(page, Key(file, pageNo), a.page);
    }

    method UnPinPage(file: FileId, pageNo: PageId, dirty: bool) returns (status: PoolStatus)
      requires Valid()
      modifies bufDescTable
      ensures Valid()
      ensures Result(State(), status) == BufferPool.UnPinPage(old(State()), Key(file, pageNo), dirty)
    {
      hide Pool.Consistent, BufHashTbl.Valid;
      ghost var s := State();
      var key := Key(file, pageNo);
      UnPinPageFacts(s, key, dirty);
      var found, frameNo := hashTable.Lookup(key);
      if found == HashNotFound {
        return NotCached;
      }
      if dirty {
        bufDescTable[frameNo] := bufDescTable[frameNo].(dirty := true);
      }
      if bufDescTable[frameNo].pinCnt == 0 {
        assert State() == BufferPool.UnPinPage(s, key, dirty).pool;
        return PageNotPinned;
      }
      bufDescTable[frameNo] := bufDescTable[frameNo].(pinCnt := bufDescTable[frameNo].pinCnt - 1);
      assert State() == BufferPool.UnPinPage(s, key, dirty).pool;
      return PoolOk;
    }

    method FlushFile(file: FileId) returns (status: PoolStatus)
      requires Valid() && file != 0
      modifies this, bufDescTable, hashTable, hashTable.ht, hashTable.nodes
      ensures Valid() && hashTable.nodes == old(hashTable.nodes)
      ensures Result(State(), status) == BufferPool.FlushFile(old(State()), file)
    {
      hide Pool.Consistent, BufHashTbl.Valid, Evict;
      ghost var s := State();
      var i := 0;
      while i < numBufs
        invariant i <= numBufs && Valid() && hashTable.nodes == old(hashTable.nodes)
        invariant FlushFrom(State(), file, i) == FlushFrom(s, file, 0)
      {
        FlushStep(State(), file, i);
        var d := bufDescTable[i];
        if d.valid && d.file == file {
          if d.pinCnt > 0 {
            return PagePinned;
          }
          FlushFrame(i);
        } else if !d.valid && d.file == file {
          return BadBuffer;
        }
        i := i + 1;
      }
      return PoolOk;
    }

    // The body of the loop of flushFile for a frame of the file.
    method FlushFrame(i: nat)
      requires Valid() && i < numBufs && bufDescTable[i].valid && bufDescTable[i].pinCnt == 0
      modifies this, bufDescTable, hashTable, hashTable.ht, hashTable.nodes
      ensures Valid() && hashTable.nodes == old(hashTable.nodes)
      ensures State() == Evict(old(State()), i)
    {
      hide Pool.Consistent, BufHashTbl.Valid, WriteDisk;
      ghost var s := State();
      VictimFacts(s, i);
      EvictConsistent(s, i);
      var d := bufDescTable[i];
      if d.dirty {
        WriteBack(i);
        bufDescTable[i] := d.(dirty := false);
      }
      var removed := hashTable.Remove(KeyOf(d));
      assert removed == HashOk;
      bufDescTable[i] := CLEARED;
      assert State() == Evict(s, i);
    }

    method DisposePage(file: FileId, pageNo: PageId) returns (status: PoolStatus)
      requires Valid() && Home(file) in disk
      modifies this, bufDescTable, hashTable, hashTable.ht, hashTable.nodes
      ensures var key := Key(file, pageNo);
              Valid() <==> status != PoolOk || old(UncachedBut(State(), State().Spot(key), Some(key)))
      ensures hashTable.Valid() && hashTable.nodes == old(hashTable.nodes)
      ensures Result(State(), status) == BufferPool.DisposePage(old(State()), Key(file, pageNo))
    {
      hide Pool.Consistent, BufHashTbl.Valid, DeletedFile;
      ghost var s := State();
      var key := Key(file, pageNo);
      DisposePageFacts(s, key);
      var found, frameNo := hashTable.Lookup(key);
      if found == HashNotFound {
        return NotCached;
      }
      bufDescTable[frameNo] := CLEARED;
      var _ := hashTable.Remove(key);
      var deleted := DeletedFile(disk[Home(file)], pageNo);
      if deleted.None? {
        return InvalidPageNumber;
      }
      disk := disk[Home(file) := deleted.value];
      return PoolOk;
    }

    // A client writes through the pointer to a page it has pinned.
    method ChangePage(file: FileId, pageNo: PageId, page: PageState)
      requires Valid() && State().Pins(Key(file, pageNo)) > 0 && State().Belongs(Key(file, pageNo), page)
      modifies bufPool
      ensures Valid()
      ensures Key(file, pageNo) in old(hashTable.entries)
      ensures State() == WriteFrame(old(State()), Key(file, pageNo), page)
    {
      hide Pool.Consistent, BufHashTbl.Valid;
      WriteFrameKeeps(State(), Key(file, pageNo), page);
      var _, frameNo := hashTable.Lookup(Key(file, pageNo));
      bufPool[frameNo] := page;
    }

    // The destructor writes back what is dirty, pinned or not.
    method Destroy()
      requires Valid()
      modifies this`disk
      ensures disk == DestroyFrom(old(State()), 0)
    {
      hide Pool.Consistent, BufHashTbl.Valid, WriteDisk;
      ghost var s := State();
      var i := 0;
      while i < numBufs
        invariant i <= numBufs && State().Consistent()
        invariant DestroyFrom(State(), i) == DestroyFrom(s, 0)
      {
        VictimFacts(State(), i);
        if bufDescTable[i].valid && bufDescTable[i].dirty {
          WrittenConsistent(State(), i);
          WriteBack(i);
        }
        i := i + 1;
      }
    }

    // file->writePage(pageNo, page); the page is in use on disk, so that it does not throw.
    method WriteBack(i: nat)
      requires i < bufDescTable.Length == bufPool.Length
      requires State().OnDisk(KeyOf(bufDescTable[i]))
      modifies this`disk
      ensures disk == WriteDisk(old(disk), State().Spot(KeyOf(bufDescTable[i])), bufPool[i])
    {
      var key := KeyOf(bufDescTable[i]);
      var written := WriteFilePage(disk[Home(key.file)], key.page, bufPool[i]);
      disk := disk[Home(key.file) := written.value];
    }
  }

  lemma AllocBufFacts(s: Pool)
    requires s.Consistent()
    ensures Swept(s).0.Consistent() && BufferPool.AllocBuf(s).0.Consistent()
  {
    SweptConsistent(s);
    AllocBufConsistent(s);
  }

  // The operations keep the pool consistent, and find what they look up.
  lemma ReadPageFacts(s: Pool, key: Key)
    requires s.Consistent() && s.Known(key.file)
    ensures BufferPool.ReadPage(s, key).pool.Consistent()
    ensures key in s.table ==> s.table[key] < |s.descs|
    ensures var (q, victim) := BufferPool.AllocBuf(s);
            && q.Known(key.file) && |q.descs| == |q.frames|
            && (victim.Some? ==> victim.value < |q.descs|)
            && (key !in s.table ==> key !in q.table)
  {
    hide Pool.Pins, Pool.OnDisk, File.WellFormed, BufferPool.AllocBuf, PinnedUntouched, PinnedStay, AllPinned;
    ReadPageKeeps(s, key);
    CachedIsOnDisk(s, key);
    AllocBufKeeps(s);
  }

  lemma UnPinPageFacts(s: Pool, key: Key, dirty: bool)
    requires s.Consistent()
    ensures BufferPool.UnPinPage(s, key, dirty).pool.Consistent()
    ensures key in s.table ==> s.table[key] < |s.descs|
  {
    UnPinPageKeeps(s, key, dirty);
    CachedIsOnDisk(s, key);
  }

  lemma FlushStep(s: Pool, f: FileId, i: nat)
    requires s.Consistent() && i < |s.descs|
    ensures s.descs[i].valid ==> Evict(s, i).Consistent()
    ensures s.descs[i].file != f ==> FlushFrom(s, f, i) == FlushFrom(s, f, i + 1)
    ensures s.descs[i].file == f && !s.descs[i].valid ==> FlushFrom(s, f, i) == Result(s, BadBuffer)
    ensures s.descs[i].file == f && s.descs[i].valid && s.descs[i].pinCnt > 0 ==>
              FlushFrom(s, f, i) == Result(s, PagePinned)
    ensures s.descs[i].file == f && s.descs[i].valid && s.descs[i].pinCnt == 0 ==>
              FlushFrom(s, f, i) == FlushFrom(Evict(s, i), f, i + 1)
  {
    hide Evict;
    EvictConsistent(s, i);
  }

  lemma DisposePageFacts(s: Pool, key: Key)
    requires s.Consistent() && s.Known(key.file)
    ensures var r := BufferPool.DisposePage(s, key);
            r.pool.Consistent() <==> r.status != PoolOk || UncachedBut(s, s.Spot(key), Some(key))
    ensures key in s.table ==> s.table[key] < |s.descs|
    ensures s.disk[s.Home(key.file)].WellFormed()
  {
    DisposePageKeeps(s, key);
    CachedIsOnDisk(s, key);
  }

  lemma VictimFacts(s: Pool, i: FrameId)
    requires s.Consistent()
    ensures i < |s.descs| && s.descs[i].dirty ==> s.descs[i].valid && s.OnDisk(KeyOf(s.descs[i]))
    ensures i < |s.descs| && s.descs[i].valid ==> KeyOf(s.descs[i]) in s.table
  {
    assert i < |s.descs| ==> s.FrameConsistent(i);
  }

  lemma StartSearch(s: Pool)
    requires s.Consistent()
    ensures s.descs != [] ==> s.hand < |s.descs| && Searching(s.descs, s.hand, 0, s.descs)
  {
    if s.descs != [] {
      assert ClearedTo(s.descs, s.hand, 0) == s.descs;
    }
  }

  // One step of the search: the frame looked at is the victim, or the search goes on.
  lemma LookAt(before: seq<BufDesc>, hand: nat, s: nat, now: seq<BufDesc>, i: nat)
    requires hand < |before| && s < 2 * |before| && Searching(before, hand, s, now)
    requires i == HandAfter(hand, s + 1, |before|)
    ensures |now| == |before| && i < |now|
    ensures if now[i].Idle() then Choose(before, hand) == Choice(Some(i), now) && (!now[i].valid ==> s < |before|)
            else Searching(before, hand, s + 1, now[i := now[i].(refbit := false)])
  {
    var n := |before|;
    var k := if s < n then s else s - n;
    assert FrameAt(hand, k, n) == i;
    assert StepsTo(hand, i, n) == k;
    if !now[i].Idle() {
      assert now[i := now[i].(refbit := false)] == ClearedTo(before, hand, if s + 1 <= n then s + 1 else n);
    }
  }

  lemma SearchFails(before: seq<BufDesc>, hand: nat, now: seq<BufDesc>)
    requires hand < |before| && Searching(before, hand, 2 * |before|, now)
    ensures Choose(before, hand) == Choice(None, now) && HandAfter(hand, 2 * |before|, |before|) == hand
  {
  }
}
