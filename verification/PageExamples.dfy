// Reachable pages on which the guards of PageLimits and PageRuns fail.
module PageExamples {
  import opened Types
  import opened SlotBytes
  import opened SlotLayout
  import opened SlottedPage
  import opened PageCorrectness
  import opened PageLimits
  import opened PageRuns

  // The header of a page, and whether its directory entry k, when it is allocated, will read as unused.
  ghost predicate Header(p: PageState, numSlots: nat, numFree: nat, upper: nat) {
    p.WellFormed() && p.numSlots == numSlots && p.numFree == numFree && p.upper == upper
  }

  lemma InsertFresh(p: PageState, record: seq<byte>, numSlots: nat, upper: nat)
    requires Header(p, numSlots, 0, upper) && SLOT_SIZE * (numSlots + 1) + |record| <= upper
    requires p.data[SLOT_SIZE * numSlots] == 0
    ensures Insert(p, record).status == Ok
    ensures var q := Insert(p, record).page;
            && Header(q, numSlots + 1, 0, upper - |record|)
            && q.Slots()[numSlots] == PageSlot(1, upper - |record|, |record|)
            && (forall k | 0 <= k < numSlots :: q.Slots()[k] == p.Slots()[k])
            && q.data[upper - |record|..upper] == record
            && forall b {:trigger q.data[b]} | SLOT_SIZE * (numSlots + 1) <= b < upper - |record| ::
                 q.data[b] == p.data[b]
  {
    hide Tiled, Directory, BlankWhenUnused, EndsUsed, PlaceRecord;
    assert !SlotAt(p.data, numSlots).Used();
    InsertCorrect(p, record);
    InsertedPlace(p, record);
    InsertedSlot(p, record);
    var q := Insert(p, record).page;
    assert q.Record(numSlots + 1) == q.Records()[numSlots + 1] == record;
    forall b {:trigger q.data[b]} | SLOT_SIZE * (numSlots + 1) <= b < upper - |record|
      ensures q.data[b] == p.data[b]
    {
      InsertKeepsFreeBytes(p, record, b);
    }
  }

  lemma InsertFirst(p: PageState, record: seq<byte>, numSlots: nat, upper: nat)
    requires Header(p, numSlots, 1, upper) && numSlots > 1 && !p.Slots()[0].Used()
    requires SLOT_SIZE * numSlots + |record| <= upper
    ensures Insert(p, record).status == Ok
    ensures var q := Insert(p, record).page;
            && Header(q, numSlots, 0, upper - |record|)
            && q.Slots()[0] == PageSlot(1, upper - |record|, |record|)
            && (forall k | 1 <= k < numSlots :: q.Slots()[k] == p.Slots()[k])
            && forall b {:trigger q.data[b]} | SLOT_SIZE * numSlots <= b < upper - |record| :: q.data[b] == p.data[b]
  {
    hide Tiled, Directory, BlankWhenUnused, EndsUsed, PlaceRecord;
    InsertCorrect(p, record);
    InsertedPlace(p, record);
    InsertedSlot(p, record);
    var q := Insert(p, record).page;
    forall b {:trigger q.data[b]} | SLOT_SIZE * numSlots <= b < upper - |record|
      ensures q.data[b] == p.data[b]
    {
      InsertKeepsFreeBytes(p, record, b);
    }
  }

  lemma DeleteFirst(p: PageState, numSlots: nat, upper: nat)
    requires Header(p, numSlots, 0, upper) && numSlots > 1 && p.Slots()[0].Occupied() && p.Settled(1) && p.MoveClear(1)
    ensures var q, hole := Deleted(p, 1), p.Slots()[0];
            && Header(q, numSlots, 1, upper + hole.length)
            && q.Slots()[0] == FREE_SLOT
            && InPage(p.Slots())
            && (forall k | 1 <= k < numSlots :: q.Slots()[k] == ShiftedSlot(p.Slots()[k], hole))
            && forall b {:trigger q.data[b]} | SLOT_SIZE * numSlots <= b < hole.offset && b < upper + hole.length ::
                 q.data[b] == p.data[b]
  {
    hide Tiled, InPage, Directory, BlankWhenUnused, EndsUsed, Vacated, PageState.Settled, PageState.MoveClear,
         CountUnused;
    RecordsInPage(p);
    ClearEntry(p, 1);
    DeletedWellFormed(p, 1);
    VacatedShape(p, 1);
    VacatedHeader(p, 1);
    var q, hole := Deleted(p, 1), p.Slots()[0];
    forall b {:trigger q.data[b]} | SLOT_SIZE * numSlots <= b < hole.offset && b < upper + hole.length
      ensures q.data[b] == p.data[b]
    {
      VacatedKeepsBytes(p, 1, b);
    }
  }

  // From a new page: insert 8 bytes, fill the rest of the page, delete the 8 bytes, insert one byte. The
  // header then promises room for one more record with a directory entry of its own, but that entry lies
  // on bytes of the record that was moved, so insertion reports a slot in use and leaves a broken page.
  lemma StaleBytesRefuseInsertion(number: PageId, eight: seq<byte>, rest: seq<byte>, one: seq<byte>)
    returns (p0: PageState, p1: PageState, p2: PageState, p3: PageState, p4: PageState)
    requires |eight| == 8 && |rest| == DATA_SIZE - 20 && |one| == 1 && rest[0] != 0
    ensures p0 == NewPage().(pageNumber := number) && p0.WellFormed()
    ensures p1 == Insert(p0, eight).page && p1.WellFormed()
    ensures p2 == Insert(p1, rest).page && p2.WellFormed() && p2.Live(1) && p2.EntryClear(1)
    ensures p3 == Deleted(p2, 1) && p3.WellFormed()
    ensures p4 == Insert(p3, one).page && p4.WellFormed()
    ensures p4.numSlots == 2 && SlotAt(p4.data, 2).Used()
    ensures p4.HasSpaceFor(1) && Insert(p4, one).status == SlotInUse && !Insert(p4, one).page.WellFormed()
  {
    hide Tiled, Directory, BlankWhenUnused, EndsUsed, Insert, Deleted;
    p0 := NewPage().(pageNumber := number);
    NewPageWellFormed(number);
    InsertFresh(p0, eight, 0, DATA_SIZE);
    p1 := Insert(p0, eight).page;
    InsertFresh(p1, rest, 1, DATA_SIZE - 8);
    p2 := Insert(p1, rest).page;
    assert p2.data[12] == rest[0];
    SettledBlock(p2, 1);
    DeleteFirst(p2, 2, 12);
    p3 := Deleted(p2, 1);
    InsertFirst(p3, one, 2, 20);
    p4 := Insert(p3, one).page;
    assert SlotAt(p4.data, 2).flag == p4.data[12] == rest[0];
    InsertCorrect(p4, one);
  }

  // From a new page: insert a record, then an empty one, and delete the first. The empty record still names the
  // offset that the first one had.
  lemma EmptyRecordLeft(number: PageId, first: seq<byte>)
    returns (p0: PageState, p1: PageState, p2: PageState, p3: PageState)
    requires 1 <= |first| <= DATA_SIZE - 12
    ensures p0 == NewPage().(pageNumber := number) && p0.WellFormed()
    ensures p1 == Insert(p0, first).page && p1.WellFormed()
    ensures p2 == Insert(p1, []).page && p2.WellFormed() && p2.Live(1) && p2.EntryClear(1)
    ensures p3 == Deleted(p2, 1) && Header(p3, 2, 1, DATA_SIZE)
    ensures p3.Slots() == [FREE_SLOT, PageSlot(1, DATA_SIZE - |first|, 0)]
    ensures forall b | 12 <= b < DATA_SIZE :: p3.data[b] == 0
  {
    hide Tiled, Directory, BlankWhenUnused, EndsUsed, Insert, Deleted;
    p0 := NewPage().(pageNumber := number);
    NewPageWellFormed(number);
    InsertFresh(p0, first, 0, DATA_SIZE);
    p1 := Insert(p0, first).page;
    InsertFresh(p1, [], 1, DATA_SIZE - |first|);
    p2 := Insert(p1, []).page;
    SettledBlock(p2, 1);
    ClearEntry(p2, 1);
    DeleteFirst(p2, 2, DATA_SIZE - |first|);
    p3 := Deleted(p2, 1);
    forall b | 12 <= b < DATA_SIZE
      ensures p3.data[b] == 0
    {
      if b >= DATA_SIZE - |first| {
        ErasedFirst(p2, b);
      }
    }
  }

  // Inserting a byte and deleting it again then moves the offset of the empty record.
  lemma EmptyRecordMoves(number: PageId, first: seq<byte>, r: byte)
    returns (p0: PageState, p1: PageState, p2: PageState, p3: PageState)
    requires 2 <= |first| <= DATA_SIZE - 12
    ensures p0 == NewPage().(pageNumber := number) && p0.WellFormed()
    ensures p1 == Insert(p0, first).page && p1.WellFormed()
    ensures p2 == Insert(p1, []).page && p2.WellFormed() && p2.Live(1) && p2.EntryClear(1)
    ensures p3 == Deleted(p2, 1) && p3.WellFormed() && Insert(p3, [r]).status == Ok
    ensures var (page, slot) := (Insert(p3, [r]).page, Insert(p3, [r]).slot);
            && page.WellFormed() && page.Live(slot) && page.EntryClear(slot)
            && Deleted(page, slot).Slots() != p3.Slots()
  {
    hide Tiled, Directory, BlankWhenUnused, EndsUsed, Insert, Deleted, PageState.EntryClear, PageState.MoveClear;
    p0, p1, p2, p3 := EmptyRecordLeft(number, first);
    InsertFirst(p3, [r], 2, DATA_SIZE);
    InsertThenDelete(p3, [r]);
    ClearEntry(Insert(p3, [r]).page, Insert(p3, [r]).slot);
    assert p3.Slots()[1].Used() && p3.Slots()[1].length == 0;
  }

  // Inserting r and then s instead, deleting or updating r loses s.
  lemma EmptyRecordLosesAnother(number: PageId, three: seq<byte>, r: byte, s: byte)
    returns (p0: PageState, p1: PageState, p2: PageState, p3: PageState, p4: PageState, p5: PageState)
    requires |three| == 3 && s != 0
    ensures p0 == NewPage().(pageNumber := number) && p0.WellFormed()
    ensures p1 == Insert(p0, three).page && p1.WellFormed()
    ensures p2 == Insert(p1, []).page && p2.WellFormed() && p2.Live(1) && p2.EntryClear(1)
    ensures p3 == Deleted(p2, 1) && p3.WellFormed()
    ensures p4 == Insert(p3, [r]).page && p4.WellFormed()
    ensures p5 == Insert(p4, [s]).page && p5.WellFormed() && p5.Live(1) && p5.MoveClear(1) && p5.EntryClear(1)
    ensures 3 in p5.Records() && p5.Records()[3] == [s] && !p5.Settled(1)
    ensures Deleted(p5, 1).WellFormed() && Deleted(p5, 1).Records() != p5.Records() - {1}
    ensures var u := Update(p5, RecordId(p5.pageNumber, 1), [r]);
            u.status == Ok && u.page.WellFormed() && u.page.Records() != p5.Records()[1 := [r]]
  {
    hide Tiled, Directory, BlankWhenUnused, EndsUsed, Insert, Deleted, Update;
    p0, p1, p2, p3 := EmptyRecordLeft(number, three);
    InsertFirst(p3, [r], 2, DATA_SIZE);
    p4 := Insert(p3, [r]).page;
    InsertFresh(p4, [s], 2, DATA_SIZE - 1);
    p5 := Insert(p4, [s]).page;
    assert p5.Slots()[1] == PageSlot(1, DATA_SIZE - 3, 0);
    assert p5.data[DATA_SIZE - 2..DATA_SIZE - 1] == [s];
    ClearEntry(p5, 1);
    DeletionRightIffSettled(p5, 1);
    UpdateRightIffSettled(p5, RecordId(p5.pageNumber, 1), [r]);
  }

  // With 8164 bytes instead of three the empty record names an offset that now lies in the directory, and the block
  // that deleting or updating r moves lands there. The entry of r stays whole, and s is lost.
  lemma BlockOnDirectoryLosesAnother(number: PageId, most: seq<byte>, r: byte, s: byte)
    returns (p0: PageState, p1: PageState, p2: PageState, p3: PageState, p4: PageState, p5: PageState)
    requires |most| == DATA_SIZE - 12 && s != 0
    ensures p0 == NewPage().(pageNumber := number) && p0.WellFormed()
    ensures p1 == Insert(p0, most).page && p1.WellFormed()
    ensures p2 == Insert(p1, []).page && p2.WellFormed() && p2.Live(1) && p2.EntryClear(1)
    ensures p3 == Deleted(p2, 1) && p3.WellFormed()
    ensures p4 == Insert(p3, [r]).page && p4.WellFormed()
    ensures p5 == Insert(p4, [s]).page && p5.WellFormed() && 3 in p5.Records() && p5.Records()[3] == [s]
    ensures LandsOnDirectory(p5, 1)
    ensures !DeletesRightly(p5, 1) && !UpdatesRightly(p5, RecordId(p5.pageNumber, 1), [r])
  {
    hide Tiled, Directory, BlankWhenUnused, EndsUsed, Insert, Deleted, Update, Vacated;
    p0, p1, p2, p3 := EmptyRecordLeft(number, most);
    InsertFirst(p3, [r], 2, DATA_SIZE);
    p4 := Insert(p3, [r]).page;
    InsertFresh(p4, [s], 2, DATA_SIZE - 1);
    p5 := Insert(p4, [s]).page;
    EmptyInDirectory(p5, r, s);
  }

  lemma ErasedFirst(p: PageState, b: nat)
    requires p.WellFormed() && p.Live(1) && p.numSlots > 1 && p.EntryClear(1) && p.Slots()[0].offset == p.upper
    requires p.upper <= b < p.Slots()[0].End()
    ensures Deleted(p, 1).data[b] == 0
  {
    hide Tiled, Directory, BlankWhenUnused, EndsUsed, Vacated, PageState.EntryClear;
    VacatedErased(p, 1, b);
  }

  // The block that deleting slot s moves lands on directory entries, but not on the slot's own.
  ghost predicate LandsOnDirectory(p: PageState, s: SlotId) {
    p.WellFormed() && p.Live(s) && !p.MoveClear(s) && p.EntryClear(s)
  }

  lemma EmptyInDirectory(p: PageState, r: byte, s: byte)
    requires Header(p, 3, 0, DATA_SIZE - 2) && s != 0
    requires p.Slots() == [PageSlot(1, DATA_SIZE - 1, 1), PageSlot(1, 12, 0), PageSlot(1, DATA_SIZE - 2, 1)]
    requires p.data[DATA_SIZE - 2..DATA_SIZE - 1] == [s]
    ensures 3 in p.Records() && p.Records()[3] == [s] && LandsOnDirectory(p, 1)
    ensures !DeletesRightly(p, 1) && !UpdatesRightly(p, RecordId(p.pageNumber, 1), [r])
  {
    hide Tiled, Directory, BlankWhenUnused, EndsUsed, BytesBelow, LowestBelow, Deleted, Update;
    var slots := p.Slots();
    assert slots[0].Used() && slots[1].Used() && slots[2].Used();
    assert !EmptyRecordsFrom(slots, p.upper);
    UnsettledBlock(p, 1);
    var lowest := LowestBelow(slots, DATA_SIZE - 1);
    assert Below(slots[1], DATA_SIZE - 1) && lowest <= slots[1].offset == 12;
    assert lowest == 12;
    assert p.Records()[2] == [] && p.Records()[3] == [s];
    NonzeroDeletionIffSettled(p, 1);
    NonzeroUpdateIffSettled(p, RecordId(p.pageNumber, 1), [r]);
  }

  // A record of five bytes in a new page lies in bytes 8171 to 8175. Its entry is a flag, a byte of padding and the
  // two numbers 0x1FEB and 5, low bytes first.
  lemma FirstRecordBytes(number: PageId, five: seq<byte>)
    requires |five| == 5
    ensures NewPage().(pageNumber := number).WellFormed()
    ensures var q := Insert(NewPage().(pageNumber := number), five).page;
            && Header(q, 1, 0, 0x1FEB)
            && q.data[..6] == [1, 0, 0xEB, 0x1F, 5, 0] && q.data[8171..] == five
            && forall b | 6 <= b < 8171 :: q.data[b] == 0
  {
    hide Tiled, Directory, BlankWhenUnused, EndsUsed, Insert;
    var p := NewPage().(pageNumber := number);
    NewPageWellFormed(number);
    InsertFresh(p, five, 0, DATA_SIZE);
    FirstEntry(p, five);
    var q := Insert(p, five).page;
    assert q.data[8171..8176] == q.data[8171..];
  }

  lemma FirstEntry(p: PageState, five: seq<byte>)
    requires p.WellFormed() && p.numSlots == 0 && p.numFree == 0 && p.upper == DATA_SIZE && p.data[1] == 0
    requires |five| == 5 && Insert(p, five).status == Ok
    ensures |Insert(p, five).page.data| == DATA_SIZE && Insert(p, five).page.data[..6] == [1, 0, 0xEB, 0x1F, 5, 0]
  {
    hide Tiled, Directory, BlankWhenUnused, EndsUsed, PutSlot;
    var slot := PageSlot(1, DATA_SIZE - 5, 5);
    assert Insert(p, five).page.data == Splice(PutSlot(p.data, 0, slot), DATA_SIZE - 5, five);
    EntryBytes(p.data, 0, slot, 1);
    var written := PutSlot(p.data, 0, slot);
    assert written[..6] == [1, 0, 0xEB, 0x1F, 5, 0];
  }
}
