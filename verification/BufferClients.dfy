// What clients can keep to without seeing into the pool: each unpins only what it has pinned, changes only what
// it has pinned, and reports what it has changed. Then nothing is lost.
module BufferClients {
  import opened Types
  import opened Files
  import opened HashTable
  import opened BufferPool
  import opened BufferConsistency
  import opened BufferDisk
  import opened BufferCorrectness
  import opened BufferRuns

  type Client = nat

  datatype ClientOp = ClientOp(client: Client, op: PoolOp)

  // The clients that have a page pinned, once for each pin; who has changed which page since pinning it; and the
  // File objects that are only read through.
  datatype Clients = Clients(holders: map<Key, seq<Client>>, changed: set<(Client, Key)>, readers: set<FileId>) {
    function Holders(key: Key): seq<Client> {
      if key in holders then holders[key] else []
    }
  }

  function Without(clients: seq<Client>, c: Client): (rest: seq<Client>) {
    if clients == [] then [] else if clients[0] == c then clients[1..] else [clients[0]] + Without(clients[1..], c)
  }

  // A client that has changed a page unpins it as dirty; nobody unpins or changes what it has not pinned.
  predicate Honest(cs: Clients, op: ClientOp) {
    !WritesThrough(op.op, cs.readers) &&
    match op.op
    case UnPin(key, dirty) => op.client in cs.Holders(key) && ((op.client, key) in cs.changed ==> dirty)
    case Change(key, _) => op.client in cs.Holders(key)
    case _ => true
  }

  function After(cs: Clients, op: ClientOp, answer: Answer): Clients {
    var c := op.client;
    if answer.status != PoolOk then cs
    else match op.op
      case Read(key) => cs.(holders := cs.holders[key := cs.Holders(key) + [c]])
      case Alloc(f) => cs.(holders := cs.holders[Key(f, answer.page) := [c]])
      case UnPin(key, _) =>
        cs.(holders := cs.holders[key := Without(cs.Holders(key), c)], changed := cs.changed - {(c, key)})
      case Change(key, _) => cs.(changed := cs.changed + {(c, key)})
      case Dispose(key) =>
        cs.(holders := cs.holders[key := []], changed := set x | x in cs.changed && x.1 != key)
      case Flush(_) => cs
  }

  // The clients' own records agree with the pool: every change not yet reported is on record with a client
  // that still has the page pinned.
  ghost predicate Agree(s: Pool, cs: Clients) {
    && cs.readers == s.aliases.Keys
    && (forall key :: |cs.Holders(key)| == s.Pins(key))
    && (forall c: Client, key: Key | (c, key) in cs.changed :: c in cs.Holders(key))
    && (forall key | s.Pins(key) > 0 && Lossy(s, key) :: exists c: Client :: (c, key) in cs.changed)
  }

  // The page would be lost if nobody reported it.
  ghost predicate Lossy(s: Pool, key: Key) {
    && key.file !in s.aliases
    && key in s.table && s.table[key] < |s.descs| == |s.frames|
    && !s.descs[s.table[key]].dirty && !s.Clean(s.table[key])
  }

  function PoolOps(ops: seq<ClientOp>): (r: seq<PoolOp>)
    ensures |r| == |ops|
  {
    if ops == [] then [] else [ops[0].op] + PoolOps(ops[1..])
  }

  ghost predicate HonestRun(cs: Clients, ops: seq<ClientOp>, answers: seq<Answer>)
    decreases |ops|
  {
    ops == [] || answers == [] ||
    (Honest(cs, ops[0]) && HonestRun(After(cs, ops[0], answers[0]), ops[1..], answers[1..]))
  }

  lemma {:induction false} WithoutOne(clients: seq<Client>, c: Client)
    requires c in clients
    ensures |Without(clients, c)| == |clients| - 1
    ensures forall d | d in clients && d != c :: d in Without(clients, c)
  {
    if clients[0] != c {
      WithoutOne(clients[1..], c);
    }
  }

  lemma LossyFacts(s: Pool, key: Key, dirty: bool)
    requires s.Consistent()
    ensures !Reported(s, key, dirty) ==>
              if key.file in s.aliases then dirty else s.Pins(key) == 1 && Lossy(s, key) && !dirty
    ensures s.Pins(key) == 1 && Lossy(s, key) ==> !Reported(s, key, false)
    ensures s.Pins(key) > 0 ==> key in s.table && s.table[key] < |s.descs| == |s.frames|
  {
    hide File.WellFormed, File.UsedPages, Shown;
    CachedIsOnDisk(s, key);
  }

  // An honest client never unpins a change as clean for the last time.
  lemma HonestIsReported(s: Pool, cs: Clients, op: ClientOp)
    requires s.Consistent() && Agree(s, cs) && Honest(cs, op) && Possible(s, op.op)
    ensures Admissible(s, op.op)
  {
    hide Pool.Consistent, Pool.Pins, Lossy, Reported;
    if op.op.UnPin? {
      var key := op.op.key;
      LossyFacts(s, key, op.op.dirty);
      if s.Pins(key) == 1 && Lossy(s, key) {
        var c: Client :| (c, key) in cs.changed;
        assert cs.Holders(key) == [cs.Holders(key)[0]];
      }
    }
  }

  // ----- the records of the clients stay right -----

  lemma UntouchedLossy(s: Pool, r: Pool, key: Key)
    requires s.Consistent() && r.Consistent() && r.aliases == s.aliases && Untouched(s, r, key) && Lossy(r, key)
    requires s.OnDisk(key) && r.OnDisk(key) && r.DiskFace(key) == s.DiskFace(key)
    requires r.IsBlob(key.file) == s.IsBlob(key.file)
    ensures Lossy(s, key)
  {
    hide File.WellFormed, File.UsedPages, Shown;
    assert s.Caches(s.table[key], key) && r.Caches(s.table[key], key);
  }

  // A page that a client has pinned stays on disk as it is.
  lemma PinnedDiskKept(s: Pool, op: PoolOp, key: Key)
    requires s.Inv() && Possible(s, op) && s.Pins(key) > 0 && key.file !in s.aliases && !Touches(op, key)
    ensures var r := Step(s, op).0;
            && r.Consistent() && r.aliases == s.aliases
            && s.OnDisk(key) && r.OnDisk(key) && r.DiskFace(key) == s.DiskFace(key)
            && r.IsBlob(key.file) == s.IsBlob(key.file)
  {
    hide File.WellFormed, File.UsedPages, Shown, Pool.Coherent,
         ReadPage, UnPinPage, FlushFile, AllocPage, DisposePage, WriteFrame, Untouched, UncachedBut;
    StepConsistent(s, op);
    StepExplained(s, op);
    StepDiskKept(s, op);
    CachedIsOnDisk(s, key);
    PinnedIsCalm(s, key);
    match op {
      case UnPin(k, dirty) => UnPinPageKeeps(s, k, dirty);
      case Dispose(k) => OtherPlace(s, k, key);
      case Alloc(f) => AllocPageKeeps(s, f);
      case _ =>
    }
  }

  lemma PinnedIsCalm(s: Pool, key: Key)
    requires s.Inv() && s.Pins(key) > 0 && key.file !in s.aliases
    ensures Calm(s, key)
  {
    hide File.WellFormed, File.UsedPages, Shown;
    forall i | 0 <= i < |s.descs| && s.descs[i].valid && s.descs[i].dirty
      ensures s.Spot(Key(s.descs[i].file, s.descs[i].page)) == s.Spot(key) ==> s.descs[i].pinCnt > 0
    {
      assert s.FrameConsistent(i);
    }
  }

  lemma OtherPlace(s: Pool, key: Key, other: Key)
    requires s.Consistent() && UncachedBut(s, s.Spot(key), Some(key)) && s.Pins(other) > 0 && other != key
    ensures s.Spot(other) != s.Spot(key)
  {
    CachedIsOnDisk(s, other);
  }

  // What makes a page lossy is a change on record, or was so before.
  lemma StepLossy(s: Pool, op: PoolOp, key: Key)
    requires s.Inv() && Possible(s, op) && Step(s, op).0.Consistent()
    requires Step(s, op).0.Pins(key) > 0 && Lossy(Step(s, op).0, key)
    ensures (s.Pins(key) > 0 && Lossy(s, key) && op != UnPin(key, true)) || (op.Change? && op.key == key)
  {
    hide File.WellFormed, File.UsedPages, Shown, Pool.Consistent, Pool.Pins, Lossy, Pool.OnDisk,
         ReadPage, UnPinPage, FlushFile, AllocPage, DisposePage, WriteFrame, Pool.Coherent, Untouched;
    StepConsistent(s, op);
    StepExplained(s, op);
    var (r, answer) := Step(s, op);
    FirstObjectOf(r, key);
    if s.Pins(key) > 0 && !Touches(op, key) {
      PinnedDiskKept(s, op, key);
      UntouchedLossy(s, r, key);
    } else if op == Read(key) {
      ReadLossy(s, key);
    } else if op.UnPin? && op.key == key {
      UnPinLossy(s, key, op.dirty);
    } else if op.Alloc? {
      NewPageNotLossy(s, op.file);
    }
  }

  lemma FirstObjectOf(s: Pool, key: Key)
    ensures Lossy(s, key) ==> key.file !in s.aliases
  {
  }

  lemma ReadLossy(s: Pool, key: Key)
    requires s.Inv() && s.Known(key.file) && Lossy(ReadPage(s, key).pool, key) && ReadPage(s, key).pool.Pins(key) > 0
    ensures s.Pins(key) > 0 && Lossy(s, key)
  {
    hide File.WellFormed, File.UsedPages, Shown, AllocBuf;
    ReadPageKeeps(s, key);
    CachedIsOnDisk(s, key);
    if s.Pins(key) == 0 {
      ReadIsReported(s, key);
      LossyFacts(ReadPage(s, key).pool, key, false);
    }
  }

  lemma UnPinLossy(s: Pool, key: Key, dirty: bool)
    requires s.Consistent() && Lossy(UnPinPage(s, key, dirty).pool, key) && UnPinPage(s, key, dirty).pool.Pins(key) > 0
    ensures s.Pins(key) > 0 && Lossy(s, key) && !dirty
  {
    hide File.WellFormed, File.UsedPages, Shown;
    UnPinPageKeeps(s, key, dirty);
    CachedIsOnDisk(s, key);
  }

  lemma NewPageNotLossy(s: Pool, f: FileId)
    requires s.Consistent() && s.Known(f) && MayAllocate(s.disk[s.Home(f)])
    ensures var r := AllocPage(s, f); r.status == PoolOk ==> !Lossy(r.pool, Key(f, r.page))
  {
    hide File.WellFormed, File.UsedPages, AllocBuf, AllocatedFile, AllPinned;
    AllocBufConsistent(s);
    AllocBufKeeps(s);
    var (q, victim) := AllocBuf(s);
    if victim.Some? {
      AllocateWellFormedIff(q.disk[q.Home(f)]);
    }
  }

  lemma HoldersAfter(s: Pool, cs: Clients, op: ClientOp, key: Key)
    requires s.Consistent() && Possible(s, op.op) && Agree(s, cs) && Honest(cs, op)
    ensures |After(cs, op, Step(s, op.op).1).Holders(key)| == Step(s, op.op).0.Pins(key)
    ensures forall c: Client | (c, key) in After(cs, op, Step(s, op.op).1).changed ::
              c in After(cs, op, Step(s, op.op).1).Holders(key)
  {
    hide Pool.Consistent, Pool.Pins, Lossy, Step, Untouched;
    StepConsistent(s, op.op);
    StepExplained(s, op.op);
    assert |cs.Holders(key)| == s.Pins(key);
    if op.op.UnPin? && op.op.key == key {
      WithoutOne(cs.Holders(key), op.client);
    }
  }

  lemma StepAgrees(s: Pool, cs: Clients, op: ClientOp)
    requires s.Inv() && Possible(s, op.op) && Agree(s, cs) && Honest(cs, op)
    ensures Step(s, op.op).0.Inv() && Agree(Step(s, op.op).0, After(cs, op, Step(s, op.op).1))
  {
    hide Pool.Consistent, Pool.Coherent, Pool.Pins, Lossy, Step, Untouched;
    HonestIsReported(s, cs, op);
    BufferRuns.StepCorrect(s, op.op);
    var (r, answer) := Step(s, op.op);
    var after := After(cs, op, answer);
    forall key
      ensures |after.Holders(key)| == r.Pins(key)
      ensures forall c: Client | (c, key) in after.changed :: c in after.Holders(key)
      ensures r.Pins(key) > 0 && Lossy(r, key) ==> exists c: Client :: (c, key) in after.changed
    {
      HoldersAfter(s, cs, op, key);
      if r.Pins(key) > 0 && Lossy(r, key) {
        StepLossy(s, op.op, key);
        ChangeOnRecord(s, cs, op, key);
      }
    }
  }

  lemma ChangeOnRecord(s: Pool, cs: Clients, op: ClientOp, key: Key)
    requires s.Inv() && Possible(s, op.op) && Agree(s, cs) && Honest(cs, op)
    requires Step(s, op.op).0.Pins(key) > 0
    requires (s.Pins(key) > 0 && Lossy(s, key) && op.op != UnPin(key, true)) || (op.op.Change? && op.op.key == key)
    ensures exists c: Client :: (c, key) in After(cs, op, Step(s, op.op).1).changed
  {
    hide Pool.Consistent, Pool.Coherent, Pool.Pins, Lossy, Step, Untouched;
    var (r, answer) := Step(s, op.op);
    StepConsistent(s, op.op);
    StepExplained(s, op.op);
    if op.op.Change? && op.op.key == key {
      assert answer.status == PoolOk by { assert Fits(op.op, answer, key, s.OnDisk(key), s.Pins(key)); }
      assert (op.client, key) in After(cs, op, answer).changed;
    } else {
      var c: Client :| (c, key) in cs.changed;
      assert (c, key) in After(cs, op, answer).changed;
    }
  }

  // ----- runs -----

  // When all clients are honest, all their changes are reported, so that the run is invisible.
  lemma {:induction false} HonestRunIsReported(s: Pool, cs: Clients, ops: seq<ClientOp>)
    requires s.Inv() && Agree(s, cs) && PossibleRun(s, PoolOps(ops))
    requires HonestRun(cs, ops, Run(s, PoolOps(ops)).1)
    ensures ReportedRun(s, PoolOps(ops))
    decreases |ops|
  {
    hide Pool.Consistent, Pool.Coherent, Step, Possible, Reported, Honest, After, Agree;
    if ops != [] {
      HonestIsReported(s, cs, ops[0]);
      StepConsistent(s, ops[0].op);
      StepAgrees(s, cs, ops[0]);
      var (q, answer) := Step(s, ops[0].op);
      assert PoolOps(ops)[1..] == PoolOps(ops[1..]);
      assert Run(s, PoolOps(ops)).1[1..] == Run(q, PoolOps(ops[1..])).1;
      HonestRunIsReported(q, After(cs, ops[0], answer), ops[1..]);
    }
  }

  lemma NobodyYet(s: Pool)
    requires forall key :: s.Pins(key) == 0
    ensures Agree(s, Clients(map[], {}, s.aliases.Keys))
  {
  }
}
