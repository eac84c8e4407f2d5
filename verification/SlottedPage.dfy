// The value of a page and what each operation of the Page class makes of it.
module SlottedPage {
  import opened Types
  import opened SlotBytes
  import opened SlotLayout

  datatype Status = Ok | InsufficientSpace | SlotInUse | InvalidSlot | InvalidRecord | OutOfRange

  datatype PageState = PageState(
    lower: uint16, upper: uint16, numSlots: uint16, numFree: uint16,
    pageNumber: PageId, nextPage: PageId, data: seq<byte>)
  {
    // The directory fits, so that its entries can be read.
    predicate Readable() {
      |data| == DATA_SIZE && SLOT_SIZE * numSlots <= DATA_SIZE
    }

    function Slots(): (slots: seq<PageSlot>)
      requires Readable()
    {
      Directory(data, numSlots)
    }

    // What every page reachable from a new one satisfies.
    ghost predicate WellFormed() {
      && Readable()
      && lower == SLOT_SIZE * numSlots
      && lower <= upper <= DATA_SIZE
      && Tiled(Slots(), upper)
      && numFree == CountUnused(Slots())
      && BlankWhenUnused(Slots())
      && EndsUsed(Slots())
    }

    predicate Live(s: SlotId)
      requires Readable()
    {
      1 <= s <= numSlots && Slots()[s - 1].Used()
    }

    function FreeSpace(): nat
      requires lower <= upper
    {
      upper - lower
    }

    predicate HasSpaceFor(length: nat)
      requires lower <= upper
    {
      (if numFree == 0 then length + SLOT_SIZE else length) <= FreeSpace()
    }

    function Record(s: SlotId): seq<byte>
      requires Readable() && Live(s) && InPage(Slots())
    {
      data[Slots()[s - 1].offset..Slots()[s - 1].End()]
    }

    // The abstract value of a page: the live slots with their bytes.
    function Records(): map<SlotId, seq<byte>>
      requires Readable() && InPage(Slots())
    {
      map s | 1 <= s <= numSlots && Live(s) :: Record(s)
    }

    // The memory of the next directory entry may still hold bytes of a record that has been moved.
    predicate FreshSlotReadsUnused()
      requires Readable()
    {
      SLOT_SIZE * (numSlots + 1) <= DATA_SIZE ==> !SlotAt(data, numSlots).Used()
    }

    // The block that deleting slot s moves starts at the upper bound of the free space, as it should:
    // nothing has to move, or no empty record kept an offset below that bound.
    predicate Settled(s: SlotId)
      requires Readable() && Live(s)
    {
      || Slots()[s - 1].length == 0
      || Slots()[s - 1].offset == upper
      || EmptyRecordsFrom(Slots(), upper)
    }

    // The block that deleting slot s moves does not land on the directory.
    predicate MoveClear(s: SlotId)
      requires Readable() && Live(s)
    {
      var hole := Slots()[s - 1];
      || hole.length == 0
      || BytesBelow(Slots(), hole.offset) == 0
      || lower <= LowestBelow(Slots(), hole.offset) + hole.length
    }

    // It leaves the entry of slot s alone, and also those that compaction reads if s is the last slot. Elsewhere it
    // may land on the directory.
    predicate EntryClear(s: SlotId)
      requires Readable() && Live(s)
    {
      var hole := Slots()[s - 1];
      var to := LowestBelow(Slots(), hole.offset) + hole.length;
      || hole.length == 0
      || BytesBelow(Slots(), hole.offset) == 0
      || SLOT_SIZE * s <= to
      || (s < numSlots && to + BytesBelow(Slots(), hole.offset) <= SLOT_SIZE * (s - 1))
    }
  }

  function Zeros(n: nat): (zeros: seq<byte>)
    ensures |zeros| == n
  {
    seq(n, _ => 0)
  }

  // A page as Page::initialize leaves it.
  function NewPage(): (p: PageState) {
    PageState(0, DATA_SIZE, 0, 0, INVALID_NUMBER, INVALID_NUMBER, Zeros(DATA_SIZE))
  }

  function Splice(data: seq<byte>, at: nat, bytes: seq<byte>): (spliced: seq<byte>)
    requires at + |bytes| <= |data|
    ensures |spliced| == |data|
  {
    data[..at] + bytes + data[at + |bytes|..]
  }

  // ----- insertion -----

  function FirstUnused(slots: seq<PageSlot>): (k: nat)
    ensures k <= |slots|
    ensures forall j | 0 <= j < k :: slots[j].Used()
    ensures k < |slots| ==> !slots[k].Used()
  {
    if slots == [] || !slots[0].Used() then 0
    else
      var k := FirstUnused(slots[1..]);
      assert forall j | 1 <= j < k + 1 :: slots[j] == slots[1..][j - 1];
      k + 1
  }

  function AvailableSlot(p: PageState): (r: (PageState, SlotId))
    requires p.WellFormed() && (p.numFree == 0 ==> SLOT_SIZE * (p.numSlots + 1) <= DATA_SIZE)
    ensures r.0.Readable()
    ensures 1 <= r.1 <= r.0.numSlots
  {
    CountIsZeroIffAllUsed(p.Slots());
    if p.numFree > 0 then (p, FirstUnused(p.Slots()) + 1)
    else
      var n := p.numSlots + 1;
      (p.(numSlots := n, numFree := p.numFree + 1, lower := SLOT_SIZE * n), n)
  }

  function PlaceRecord(p: PageState, s: SlotId, record: seq<byte>): (q: PageState)
    requires p.Readable() && 1 <= s <= p.numSlots && |record| <= p.upper <= DATA_SIZE && p.numFree > 0
  {
    var offset := p.upper - |record|;
    var entered := PutSlot(p.data, s - 1, PageSlot(1, offset, |record|));
    p.(upper := offset, numFree := p.numFree - 1, data := Splice(entered, offset, record))
  }

  datatype InsertResult = InsertResult(page: PageState, status: Status, slot: SlotId)

  function Insert(p: PageState, record: seq<byte>): (r: InsertResult)
    requires p.WellFormed()
  {
    if !p.HasSpaceFor(|record|) then InsertResult(p, InsufficientSpace, INVALID_SLOT)
    else
      CountIsZeroIffAllUsed(p.Slots());
      var (q, s) := AvailableSlot(p);
      if q.Slots()[s - 1].Used() then InsertResult(q, SlotInUse, INVALID_SLOT)
      else InsertResult(PlaceRecord(q, s, record), Ok, s)
  }

  // ----- deletion -----

  // std::string::substr and the copying loop; nothing is copied when there is nothing to move.
  function MoveBlock(data: seq<byte>, from: nat, to: nat, n: nat): (moved: seq<byte>)
    requires from + n <= |data| && to + n <= |data|
    ensures |moved| == |data|
  {
    if n > 0 then Splice(data, to, data[from..from + n]) else data
  }

  // The bytes after the record of slot s is erased and the records below it renumbered.
  function Renumbered(p: PageState, s: SlotId): (data: seq<byte>)
    requires p.WellFormed() && p.Live(s)
    ensures |data| == DATA_SIZE
  {
    var hole := p.Slots()[s - 1];
    WriteDirectory(Splice(p.data, hole.offset, Zeros(hole.length)), Shifted(p.Slots(), s - 1))
  }

  // The bytes after the block below the record of slot s has been moved as well.
  function Moved(p: PageState, s: SlotId): (data: seq<byte>)
    requires p.WellFormed() && p.Live(s) && p.EntryClear(s)
    ensures |data| == DATA_SIZE
  {
    var hole := p.Slots()[s - 1];
    var from, bytes := LowestBelow(p.Slots(), hole.offset), BytesBelow(p.Slots(), hole.offset);
    BlockFits(p.Slots(), p.upper, s - 1);
    MoveBlock(Renumbered(p, s), from, from + hole.length, bytes)
  }

  // deleteRecord without slot compaction.
  function Vacated(p: PageState, s: SlotId): (q: PageState)
    requires p.WellFormed() && p.Live(s) && p.EntryClear(s)
    ensures q.Readable()
  {
    CountIsZeroIffAllUsed(p.Slots());
    p.(data := PutSlot(Moved(p, s), s - 1, FREE_SLOT),
       upper := p.upper + p.Slots()[s - 1].length,
       numFree := p.numFree + 1)
  }

  // Drops the unused entries at the end of the directory.
  function Compacted(p: PageState): (q: PageState)
    requires p.Readable() && p.lower == SLOT_SIZE * p.numSlots && p.numFree == CountUnused(p.Slots())
    ensures q.Readable()
  {
    CountTrimmed(p.Slots());
    var n := |TrimTail(p.Slots())|;
    p.(numSlots := n, numFree := p.numFree - (p.numSlots - n), lower := p.lower - SLOT_SIZE * (p.numSlots - n))
  }

  function Deleted(p: PageState, s: SlotId): (q: PageState)
    requires p.WellFormed() && p.Live(s) && p.EntryClear(s)
    ensures q.Readable()
  {
    if s == p.numSlots then
      ClearEntry(p, s);
      VacatedShape(p, s);
      Compacted(Vacated(p, s))
    else Vacated(p, s)
  }

  datatype UpdateResult = UpdateResult(page: PageState, status: Status)

  function Valid(p: PageState, id: RecordId): bool
    requires p.Readable() && 1 <= id.slotNumber <= p.numSlots
  {
    id.pageNumber == p.pageNumber && p.Live(id.slotNumber)
  }

  // getRecord, for any slot number whose entry would lie in the page. Whether the directory has the slot is not
  // checked: beyond its end whatever bytes are there decide. std::string::substr throws when it is to start after
  // the end, and stops at the end.
  function Fetch(p: PageState, id: RecordId): (r: (Status, seq<byte>))
    requires p.Readable() && 1 <= id.slotNumber && SLOT_SIZE * id.slotNumber <= DATA_SIZE
  {
    var slot := SlotAt(p.data, id.slotNumber - 1);
    if id.pageNumber != p.pageNumber || !slot.Used() then (InvalidRecord, [])
    else if slot.offset > DATA_SIZE then (OutOfRange, [])
    else (Ok, p.data[slot.offset..if slot.End() <= DATA_SIZE then slot.End() else DATA_SIZE])
  }

  function Delete(p: PageState, id: RecordId): (r: UpdateResult)
    requires p.WellFormed() && 1 <= id.slotNumber <= p.numSlots
    requires Valid(p, id) ==> p.EntryClear(id.slotNumber)
  {
    if Valid(p, id) then UpdateResult(Deleted(p, id.slotNumber), Ok) else UpdateResult(p, InvalidRecord)
  }

  // Whether a record of n bytes fits once the record of slot s is gone.
  predicate FitsInstead(p: PageState, s: SlotId, n: nat)
    requires p.Readable() && p.lower <= p.upper && 1 <= s <= p.numSlots
  {
    n <= p.FreeSpace() + p.Slots()[s - 1].length
  }

  function Update(p: PageState, id: RecordId, record: seq<byte>): (r: UpdateResult)
    requires p.WellFormed() && 1 <= id.slotNumber <= p.numSlots
    requires Valid(p, id) && FitsInstead(p, id.slotNumber, |record|) ==> p.EntryClear(id.slotNumber)
  {
    if !Valid(p, id) then UpdateResult(p, InvalidRecord)
    else if !FitsInstead(p, id.slotNumber, |record|) then UpdateResult(p, InsufficientSpace)
    else
      hide PutSlot, WriteDirectory, Tiled;
      VacatedHeader(p, id.slotNumber);
      UpdateResult(PlaceRecord(Vacated(p, id.slotNumber), id.slotNumber, record), Ok)
  }

  // ----- the shape of the results -----

  lemma ClearEntry(p: PageState, s: SlotId)
    requires p.WellFormed() && p.Live(s)
    ensures p.MoveClear(s) ==> p.EntryClear(s)
    ensures s == p.numSlots && p.EntryClear(s) ==> p.MoveClear(s)
  {
  }

  lemma VacatedHeader(p: PageState, s: SlotId)
    requires p.WellFormed() && p.Live(s) && p.EntryClear(s)
    ensures var v := Vacated(p, s);
            && v.numSlots == p.numSlots && v.numFree == p.numFree + 1 && v.lower == p.lower
            && v.upper == p.upper + p.Slots()[s - 1].length <= DATA_SIZE
            && v.pageNumber == p.pageNumber && v.nextPage == p.nextPage
  {
    hide PutSlot, Moved, Directory, PageState.EntryClear, LowestBelow;
    BlockFits(p.Slots(), p.upper, s - 1);
  }

  // The slot's own entry is marked unused.
  lemma VacatedUnused(p: PageState, s: SlotId)
    requires p.WellFormed() && p.Live(s) && p.EntryClear(s)
    ensures Vacated(p, s).numSlots == p.numSlots && Vacated(p, s).Slots()[s - 1] == FREE_SLOT
  {
    hide PutSlot, Moved, PageState.EntryClear;
    ReadBackSlot(Moved(p, s), s - 1, FREE_SLOT, s - 1);
  }

  lemma MoveKeepsEntries(data: seq<byte>, n: nat, from: nat, to: nat, count: nat)
    requires from + count <= |data| && to + count <= |data| && SLOT_SIZE * n <= |data|
    requires from == to || count == 0 || SLOT_SIZE * n <= to
    ensures Directory(MoveBlock(data, from, to, count), n) == Directory(data, n)
  {
    SameBytesSameDirectory(data, MoveBlock(data, from, to, count), n);
  }

  lemma MoveKeepsDirectory(p: PageState, s: SlotId)
    requires p.WellFormed() && p.Live(s) && p.MoveClear(s)
    ensures Directory(Moved(p, s), p.numSlots) == Shifted(p.Slots(), s - 1)
  {
    hide SlotAt, WriteDirectory, Splice, MoveBlock, Covered, LowestBelow, BytesBelow, Directory, Shifted;
    var hole := p.Slots()[s - 1];
    ReadBackDirectory(Splice(p.data, hole.offset, Zeros(hole.length)), Shifted(p.Slots(), s - 1));
    var from, bytes := LowestBelow(p.Slots(), hole.offset), BytesBelow(p.Slots(), hole.offset);
    BlockFits(p.Slots(), p.upper, s - 1);
    MoveKeepsEntries(Renumbered(p, s), p.numSlots, from, from + hole.length, bytes);
  }

  lemma ReadBackInDirectory(data: seq<byte>, n: nat, k: nat, slot: PageSlot)
    requires SLOT_SIZE * n <= |data| && k < n
    ensures Directory(PutSlot(data, k, slot), n) == Directory(data, n)[k := slot]
  {
    forall j | 0 <= j < n
      ensures SlotAt(PutSlot(data, k, slot), j) == Directory(data, n)[k := slot][j]
    {
      ReadBackSlot(data, k, slot, j);
    }
  }

  lemma VacatedSlots(p: PageState, s: SlotId)
    requires p.WellFormed() && p.Live(s) && p.MoveClear(s)
    ensures Vacated(p, s).Slots() == WithoutRecord(p.Slots(), s - 1)
  {
    hide PutSlot;
    MoveKeepsDirectory(p, s);
    ReadBackInDirectory(Moved(p, s), p.numSlots, s - 1, FREE_SLOT);
  }

  lemma VacatedCount(slots: seq<PageSlot>, k: nat)
    requires k < |slots| && slots[k].Used() && InPage(slots)
    ensures CountUnused(WithoutRecord(slots, k)) == CountUnused(slots) + 1
  {
    CountSameFlags(slots, Shifted(slots, k));
    CountAfterUpdate(Shifted(slots, k), k, FREE_SLOT);
  }

  lemma VacatedShape(p: PageState, s: SlotId)
    requires p.WellFormed() && p.Live(s) && p.MoveClear(s)
    ensures Vacated(p, s).Slots() == WithoutRecord(p.Slots(), s - 1)
    ensures Vacated(p, s).numFree == CountUnused(Vacated(p, s).Slots())
    ensures Vacated(p, s).upper <= DATA_SIZE
    ensures InPage(Vacated(p, s).Slots())
    ensures Tiled(Vacated(p, s).Slots(), Vacated(p, s).upper)
  {
    hide PutSlot, WriteDirectory, SlotAt, Directory, Moved, Shifted, Covered;
    VacatedSlots(p, s);
    VacatedCount(p.Slots(), s - 1);
    WithoutRecordTiles(p.Slots(), p.upper, s - 1);
  }
}
