// Whole runs of the buffer manager against the clock machine: which frames are handed out and which pages are evicted.
module ClockRuns {
  import opened Types
  import opened SlottedPage
  import opened Files
  import opened HashTable
  import opened Clock
  import opened ClockMachine
  import opened BufferPool
  import opened BufferConsistency
  import opened BufferEffects
  import opened BufferRuns

  // What an operation is to the clock.
  ghost function EventOf(s: Pool, op: PoolOp): Event
    requires s.Consistent() && Possible(s, op)
  {
    match op
    case Read(key) => if key in s.table then Hit(s.table[key]) else Miss(s.OnDisk(key))
    case UnPin(key, _) => if key in s.table && s.Pins(key) > 0 then Release(s.table[key]) else Nothing
    case Flush(f) => Clear(set j: FrameId | 0 <= j < StopsAt(s, f, 0) && OfFile(s, f, j))
    case Alloc(_) => Miss(true)
    case Dispose(key) => if key in s.table then Clear({s.table[key]}) else Nothing
    case Change(_, _) => Nothing
  }

  // The frame that the client gets a pointer to.
  ghost function Handed(s: Pool, op: PoolOp): Option<FrameId>
    requires s.Consistent() && Possible(s, op)
  {
    match op
    case Read(key) => var r := ReadPage(s, key); if r.status == PoolOk then Some(r.frame) else None
    case Alloc(f) => var r := AllocPage(s, f); if r.status == PoolOk then Some(r.frame) else None
    case _ => None
  }

  lemma TakenOnClock(s: Pool, q: Pool, r: Pool, found: bool)
    requires s.Consistent() && !AllPinned(s) && Taken(s, q, q.hand)
    requires if found then exists key, page :: Entered(q, r, q.hand, key, page) else r == q
    ensures ClockStep(ClockOf(s), Miss(found), ClockOf(r), if found then Some(q.hand) else None)
  {
    hide Pool.Consistent, Emptied, ClockState.IsVictim, ClockState.Passes, ClockState.AllPinned;
    MarksAre(s);
    MarksAre(r);
    assert |q.descs| == |s.descs| && q.descs[q.hand] == CLEARED by { EmptiedFrame(s, q, q.hand); }
  }

  lemma EmptiedFrame(s: Pool, q: Pool, v: FrameId)
    requires Emptied(s, q, v)
    ensures v < |q.descs| == |s.descs| && q.descs[v] == CLEARED
  {
  }

  lemma RefusedOnClock(s: Pool, r: Pool, found: bool)
    requires Refused(s, r)
    ensures ClockStep(ClockOf(s), Miss(found), ClockOf(r), None)
  {
    hide ClockState.AllPinned;
    MarksAre(s);
    MarksAre(r);
  }

  // One operation does to hand, pins and bits what the machine does, and hands out the frame that the machine does.
  lemma StepFollowsClock(s: Pool, op: PoolOp)
    requires s.Consistent() && Possible(s, op)
    ensures ClockStep(ClockOf(s), EventOf(s, op), ClockOf(Step(s, op).0), Handed(s, op))
    ensures Step(s, op).1.status == BufferExceeded <==> EventOf(s, op).Miss? && ClockOf(s).AllPinned()
  {
    hide ReadPage, UnPinPage, FlushFile, AllocPage, DisposePage, File.WellFormed, File.UsedPages, Taken, Refused,
         Flushed, Pool.Consistent, ClockOf, ClockStep, AllPinned, ClockState.AllPinned, Entered, Pool.OnDisk;
    MarksAre(s);
    match op
    case Read(key) => ReadOnClock(s, key);
    case UnPin(key, dirty) => UnPinOnClock(s, key, dirty);
    case Flush(f) => FlushOnClock(s, f);
    case Alloc(f) => AllocOnClock(s, f);
    case Dispose(key) => DisposeOnClock(s, key);
    case Change(key, page) => ChangeOnClock(s, key, page);
  }

  lemma ReadOnClock(s: Pool, key: Key)
    requires s.Consistent() && s.Known(key.file)
    ensures var r := ReadPage(s, key);
            && ClockStep(ClockOf(s), if key in s.table then Hit(s.table[key]) else Miss(s.OnDisk(key)), ClockOf(r.pool),
                         if r.status == PoolOk then Some(r.frame) else None)
            && (r.status == BufferExceeded <==> key !in s.table && AllPinned(s))
  {
    hide ReadPage, File.WellFormed, File.UsedPages, Taken, Refused, AllPinned, Pool.OnDisk, Entered, Pool.Consistent;
    ReadPageExact(s, key);
    var r := ReadPage(s, key);
    if key in s.table {
      CachedValid(s, key);
      MarksAre(s);
      MarksAre(r.pool);
    } else if AllPinned(s) {
      RefusedOnClock(s, r.pool, s.OnDisk(key));
    } else {
      var q :| ReadInto(s, q, r, key);
      TakenOnClock(s, q, r.pool, s.OnDisk(key));
    }
  }

  lemma CachedValid(s: Pool, key: Key)
    requires s.Consistent() && key in s.table
    ensures s.table[key] < |s.descs| && s.descs[s.table[key]].valid
  {
    assert s.Caches(s.table[key], key);
  }

  lemma UnPinOnClock(s: Pool, key: Key, dirty: bool)
    requires s.Consistent()
    ensures var r := UnPinPage(s, key, dirty);
            && ClockStep(ClockOf(s), if key in s.table && s.Pins(key) > 0 then Release(s.table[key]) else Nothing,
                         ClockOf(r.pool), None)
            && r.status != BufferExceeded
  {
    hide UnPinPage, Pool.Consistent;
    UnPinPageExact(s, key, dirty);
    var r := UnPinPage(s, key, dirty).pool;
    MarksAre(s);
    MarksAre(r);
    if key in s.table {
      CachedValid(s, key);
      var i := s.table[key];
      assert ClockOf(r).marks == ClockOf(s).marks[i := MarkOf(r.descs[i])];
    }
  }

  lemma FlushOnClock(s: Pool, f: FileId)
    requires s.Consistent() && f != 0
    ensures var r := FlushFile(s, f);
            && ClockStep(ClockOf(s), Clear(set j: FrameId | 0 <= j < StopsAt(s, f, 0) && OfFile(s, f, j)),
                         ClockOf(r.pool), None)
            && r.status != BufferExceeded
  {
    hide FlushFile, Pool.Consistent, HoldsFrame, SameFiles;
    FlushFileExact(s, f);
    MarksAre(s);
    MarksAre(FlushFile(s, f).pool);
  }

  lemma AllocOnClock(s: Pool, f: FileId)
    requires s.Consistent() && s.Known(f)
    ensures var r := AllocPage(s, f);
            && ClockStep(ClockOf(s), Miss(true), ClockOf(r.pool), if r.status == PoolOk then Some(r.frame) else None)
            && (r.status == BufferExceeded <==> AllPinned(s))
  {
    hide AllocPage, File.WellFormed, File.UsedPages, Taken, Refused, AllPinned, Entered, AllocatedFile, Pool.Consistent;
    AllocPageExact(s, f);
    var r := AllocPage(s, f);
    if AllPinned(s) {
      RefusedOnClock(s, r.pool, true);
    } else {
      var q :| AllocatedInto(s, q, r, f);
      TakenOnClock(s, q, r.pool, true);
    }
  }

  lemma DisposeOnClock(s: Pool, key: Key)
    requires s.Consistent() && s.Known(key.file)
    ensures var r := DisposePage(s, key);
            && ClockStep(ClockOf(s), if key in s.table then Clear({s.table[key]}) else Nothing, ClockOf(r.pool), None)
            && r.status != BufferExceeded
  {
    hide DisposePage, File.WellFormed, File.UsedPages, DeletedFile, Pool.Consistent;
    DisposePageExact(s, key);
    MarksAre(s);
    MarksAre(DisposePage(s, key).pool);
  }

  lemma ChangeOnClock(s: Pool, key: Key, page: PageState)
    requires s.Consistent() && key in s.table
    ensures ClockStep(ClockOf(s), Nothing, ClockOf(WriteFrame(s, key, page)), None)
  {
  }

  // ----- runs -----

  // The pools that a run goes through.
  ghost function Pools(s: Pool, ops: seq<PoolOp>): (pools: seq<Pool>)
    requires s.Consistent() && PossibleRun(s, ops)
    ensures |pools| == |ops| + 1 && pools[0] == s
    decreases |ops|
  {
    if ops == [] then [s]
    else
      StepConsistent(s, ops[0]);
      [s] + Pools(Step(s, ops[0]).0, ops[1..])
  }

  lemma {:induction false} PoolsStep(s: Pool, ops: seq<PoolOp>, k: nat)
    requires s.Consistent() && PossibleRun(s, ops) && k < |ops|
    ensures var q := Pools(s, ops)[k];
            && q.Consistent() && Possible(q, ops[k]) && Pools(s, ops)[k + 1] == Step(q, ops[k]).0
            && q.aliases == s.aliases
    ensures Pools(s, ops)[|ops|] == Run(s, ops).0
    decreases |ops|
  {
    hide Pool.Consistent, Step, Possible, Untouched;
    StepConsistent(s, ops[0]);
    var q := Step(s, ops[0]).0;
    if |ops| > 1 {
      PoolsStep(q, ops[1..], if k > 0 then k - 1 else 0);
    }
  }

  ghost function States(s: Pool, ops: seq<PoolOp>): (states: seq<ClockState>)
    requires s.Consistent() && PossibleRun(s, ops)
    ensures |states| == |ops| + 1
  {
    seq(|ops| + 1, k requires 0 <= k <= |ops| => ClockOf(Pools(s, ops)[k]))
  }

  ghost function Events(s: Pool, ops: seq<PoolOp>): (events: seq<Event>)
    requires s.Consistent() && PossibleRun(s, ops)
    ensures |events| == |ops|
    decreases |ops|
  {
    if ops == [] then []
    else
      StepConsistent(s, ops[0]);
      [EventOf(s, ops[0])] + Events(Step(s, ops[0]).0, ops[1..])
  }

  ghost function HandedOut(s: Pool, ops: seq<PoolOp>): (handed: seq<Option<FrameId>>)
    requires s.Consistent() && PossibleRun(s, ops)
    ensures |handed| == |ops|
    decreases |ops|
  {
    if ops == [] then []
    else
      StepConsistent(s, ops[0]);
      [Handed(s, ops[0])] + HandedOut(Step(s, ops[0]).0, ops[1..])
  }

  lemma {:induction false} EventAt(s: Pool, ops: seq<PoolOp>, k: nat)
    requires s.Consistent() && PossibleRun(s, ops) && k < |ops|
    ensures var q := Pools(s, ops)[k];
            && q.Consistent() && Possible(q, ops[k])
            && Events(s, ops)[k] == EventOf(q, ops[k]) && HandedOut(s, ops)[k] == Handed(q, ops[k])
    decreases |ops|
  {
    hide Pool.Consistent, Step, Possible, Untouched, EventOf, Handed;
    StepConsistent(s, ops[0]);
    if k > 0 {
      EventAt(Step(s, ops[0]).0, ops[1..], k - 1);
    }
  }

  // Over every run, hand, pins and reference bits, victims, refusals and the frames handed out are those of a machine
  // that knows no pages. It has no choice (ClockMachine.TraceDetermined).
  lemma RunFollowsClock(s: Pool, ops: seq<PoolOp>)
    requires s.Consistent() && PossibleRun(s, ops)
    ensures Trace(States(s, ops), Events(s, ops), HandedOut(s, ops))
    ensures States(s, ops)[0] == ClockOf(s) && States(s, ops)[|ops|] == ClockOf(Run(s, ops).0)
  {
    hide Pool.Consistent, Step, Possible, EventOf, Handed, ClockOf, ClockStep, Pools, Events, HandedOut, Run,
         PossibleRun;
    forall k | 0 <= k < |ops|
      ensures ClockStep(States(s, ops)[k], Events(s, ops)[k], States(s, ops)[k + 1], HandedOut(s, ops)[k])
    {
      PoolsStep(s, ops, k);
      EventAt(s, ops, k);
      StepFollowsClock(Pools(s, ops)[k], ops[k]);
    }
    if ops == [] {
      EmptyRun(s);
    } else {
      PoolsStep(s, ops, 0);
    }
  }

  // A page that has been read or allocated since the hand last came to its frame stays in the pool while another frame
  // is free or idle, whatever is read or allocated next.
  lemma RecentPageStays(s: Pool, ops: seq<PoolOp>, j: nat, k: nat, key: Key)
    requires s.Consistent() && PossibleRun(s, ops) && j < k < |ops|
    requires key in Pools(s, ops)[k].table && HandedOut(s, ops)[j] == Some(Pools(s, ops)[k].table[key])
    requires forall t | j < t < k ::
               !Reaches(States(s, ops)[t], Events(s, ops)[t], States(s, ops)[t + 1], Pools(s, ops)[k].table[key])
    requires Events(s, ops)[k].Miss? && States(s, ops)[k].AnyIdle()
    ensures var before, after := Pools(s, ops)[k], Pools(s, ops)[k + 1];
            key in after.table && after.table[key] == before.table[key]
  {
    hide Pool.Consistent, Step, Possible, EventOf, Handed, ClockOf, ClockStep, Pools, Events, HandedOut, Run,
         PossibleRun, Reaches, ClockState.AnyIdle;
    RunFollowsClock(s, ops);
    SecondChance(States(s, ops), Events(s, ops), HandedOut(s, ops), j, k, Pools(s, ops)[k].table[key]);
    PoolsStep(s, ops, k);
    EventAt(s, ops, k);
    OthersStay(Pools(s, ops)[k], ops[k], key);
  }

  lemma OthersStay(s: Pool, op: PoolOp, key: Key)
    requires s.Consistent() && Possible(s, op) && EventOf(s, op).Miss? && key in s.table
    ensures var r := Step(s, op).0;
            s.table[key] != ClockOf(r).hand ==> key in r.table && r.table[key] == s.table[key]
  {
    hide ReadPage, AllocPage, AllPinned, File.WellFormed, File.UsedPages, AllocatedFile, WrittenBack,
         ClockState.IsVictim, ClockState.Passes, ClockState.AllPinned, Pool.OnDisk, Pool.Consistent;
    match op
    case Read(other) =>
      ReadPageExact(s, other);
      if !AllPinned(s) {
        var q :| ReadInto(s, q, ReadPage(s, other), other);
      }
    case Alloc(f) =>
      AllocPageExact(s, f);
      if !AllPinned(s) {
        var q :| AllocatedInto(s, q, AllocPage(s, f), f);
      }
  }

  // ----- what is marked dirty -----

  predicate MarkedDirty(s: Pool, key: Key) {
    key in s.table && s.table[key] < |s.descs| && s.descs[s.table[key]].dirty
  }

  // A cached page is marked dirty if it was, or if the operation reports it, even when that unpins nothing; a page that
  // has just come in is not.
  lemma StepMarksDirty(s: Pool, op: PoolOp, key: Key)
    requires s.Consistent() && Possible(s, op)
    ensures var r := Step(s, op).0;
            key in r.table ==>
              (MarkedDirty(r, key) <==> key in s.table && (MarkedDirty(s, key) || op == UnPin(key, true)))
  {
    hide ReadPage, UnPinPage, FlushFile, AllocPage, DisposePage, WriteFrame, File.WellFormed, File.UsedPages,
         MarkedDirty, AllocatedFile, DeletedFile, AllPinned, SameFiles, HoldsFrame, Pool.OnDisk, Taken, Refused,
         Entered, Pool.Consistent, Flushed;
    match op
    case Read(other) => ReadMarksNothing(s, other, key);
    case UnPin(other, dirty) => UnPinMarks(s, other, dirty, key);
    case Flush(f) => FlushMarksNothing(s, f, key);
    case Alloc(f) => AllocMarksNothing(s, f, key);
    case Dispose(other) => DisposeMarksNothing(s, other, key);
    case Change(other, page) => ChangeMarksNothing(s, other, page, key);
  }

  // Pages cached in r are marked dirty as they were in s.
  ghost predicate SameMark(s: Pool, r: Pool, key: Key) {
    key in r.table ==> (MarkedDirty(r, key) <==> key in s.table && MarkedDirty(s, key))
  }

  lemma TakenMarksNothing(s: Pool, q: Pool, r: Pool, entered: Option<Key>, key: Key)
    requires s.Consistent() && Taken(s, q, q.hand)
    requires match entered
             case None => r == q
             case Some(other) => other !in s.table && exists page :: Entered(q, r, q.hand, other, page)
    ensures SameMark(s, r, key)
  {
    hide File.WellFormed, File.UsedPages, ClockState.IsVictim, ClockState.Passes, WrittenBack;
    OneFrameEach(s, key);
  }

  lemma ReadMarksNothing(s: Pool, other: Key, key: Key)
    requires s.Consistent() && s.Known(other.file)
    ensures SameMark(s, ReadPage(s, other).pool, key)
  {
    hide ReadPage, File.WellFormed, File.UsedPages, Taken, AllPinned, Entered, Pool.OnDisk, ClockState.AllPinned;
    ReadPageExact(s, other);
    OneFrameEach(s, key);
    OneFrameEach(s, other);
    var r := ReadPage(s, other);
    if other !in s.table && !AllPinned(s) {
      var q :| ReadInto(s, q, r, other);
      TakenMarksNothing(s, q, r.pool, if s.OnDisk(other) then Some(other) else None, key);
    }
  }

  lemma AllocMarksNothing(s: Pool, f: FileId, key: Key)
    requires s.Consistent() && s.Known(f) && MayAllocate(s.disk[s.Home(f)])
    ensures SameMark(s, AllocPage(s, f).pool, key)
  {
    hide AllocPage, File.WellFormed, File.UsedPages, Taken, AllPinned, Entered, AllocatedFile, ClockState.AllPinned;
    AllocPageExact(s, f);
    AllocPageKeeps(s, f);
    OneFrameEach(s, key);
    var r := AllocPage(s, f);
    if !AllPinned(s) {
      var q :| AllocatedInto(s, q, r, f);
      CachedIsOnDisk(s, Key(f, r.page));
      TakenMarksNothing(s, q, r.pool, Some(Key(f, r.page)), key);
    }
  }

  lemma UnPinMarks(s: Pool, other: Key, dirty: bool, key: Key)
    requires s.Consistent()
    ensures var r := UnPinPage(s, other, dirty).pool;
            key in r.table ==>
              (MarkedDirty(r, key) <==> key in s.table && (MarkedDirty(s, key) || (key == other && dirty)))
  {
    hide UnPinPage, File.WellFormed, File.UsedPages, Pool.Consistent;
    UnPinPageExact(s, other, dirty);
    OneFrameEach(s, key);
    OneFrameEach(s, other);
  }

  lemma FlushMarksNothing(s: Pool, f: FileId, key: Key)
    requires s.Consistent() && f != 0
    ensures SameMark(s, FlushFile(s, f).pool, key)
  {
    hide FlushFile, File.WellFormed, File.UsedPages, Pool.Consistent, SameFiles, HoldsFrame;
    FlushFileExact(s, f);
    OneFrameEach(s, key);
  }

  lemma DisposeMarksNothing(s: Pool, other: Key, key: Key)
    requires s.Consistent() && s.Known(other.file)
    ensures SameMark(s, DisposePage(s, other).pool, key)
  {
    hide DisposePage, File.WellFormed, File.UsedPages, Pool.Consistent, DeletedFile;
    DisposePageExact(s, other);
    OneFrameEach(s, key);
    OneFrameEach(s, other);
  }

  lemma ChangeMarksNothing(s: Pool, other: Key, page: PageState, key: Key)
    requires s.Consistent() && other in s.table
    ensures SameMark(s, WriteFrame(s, other, page), key)
  {
  }

  lemma OneFrameEach(s: Pool, key: Key)
    requires s.Consistent()
    ensures key in s.table ==>
              && s.table[key] < |s.descs| && KeyIn(s, s.table[key]) == key && s.descs[s.table[key]].valid
              && forall other | other in s.table && s.table[other] == s.table[key] :: other == key
  {
    hide File.WellFormed, File.UsedPages;
    if key in s.table {
      assert s.Caches(s.table[key], key);
      forall other | other in s.table && s.table[other] == s.table[key]
        ensures other == key
      {
        assert s.Caches(s.table[other], other);
      }
    }
  }

  // Over a run during which a page stays cached it is marked dirty if and only if it was at the start or some unpin
  // has reported it.
  lemma {:induction false} RunMarksDirty(s: Pool, ops: seq<PoolOp>, key: Key)
    requires s.Consistent() && PossibleRun(s, ops)
    requires forall k | 0 <= k <= |ops| :: key in Pools(s, ops)[k].table
    ensures MarkedDirty(Run(s, ops).0, key) <==> MarkedDirty(s, key) || UnPin(key, true) in ops
    decreases |ops|
  {
    hide Pool.Consistent, Step, Possible, MarkedDirty, Untouched;
    if ops != [] {
      StepConsistent(s, ops[0]);
      StepMarksDirty(s, ops[0], key);
      var q := Step(s, ops[0]).0;
      forall k | 0 <= k <= |ops[1..]|
        ensures key in Pools(q, ops[1..])[k].table
      {
        assert Pools(s, ops)[k + 1] == Pools(q, ops[1..])[k];
      }
      assert key in Pools(s, ops)[0].table && key in Pools(s, ops)[1].table;
      RunMarksDirty(q, ops[1..], key);
      assert ops == [ops[0]] + ops[1..];
    }
  }
}
