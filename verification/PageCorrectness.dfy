// What the page operations mean: a page is a finite map from slot numbers to bytes.
module PageCorrectness {
  import opened Types
  import opened SlotBytes
  import opened SlotLayout
  import opened SlottedPage

  // ----- deletion -----

  // On a settled page the block to move is exactly what lies between the free space and the record.
  lemma SettledBlock(p: PageState, s: SlotId)
    requires p.WellFormed() && p.Live(s) && p.Settled(s)
    ensures p.MoveClear(s)
    ensures var hole := p.Slots()[s - 1];
            var from, bytes := LowestBelow(p.Slots(), hole.offset), BytesBelow(p.Slots(), hole.offset);
            && from + hole.length + bytes <= DATA_SIZE
            && (hole.length > 0 ==>
                  p.upper <= hole.offset && bytes == hole.offset - p.upper && (bytes > 0 ==> from == p.upper))
  {
    BlockFits(p.Slots(), p.upper, s - 1);
  }

  lemma SpliceBytes(data: seq<byte>, at: nat, bytes: seq<byte>)
    requires at + |bytes| <= |data|
    ensures forall j {:trigger Splice(data, at, bytes)[j]} | 0 <= j < |data| ::
              Splice(data, at, bytes)[j] == if at <= j < at + |bytes| then bytes[j - at] else data[j]
  {
  }

  lemma BytesAboveDirectory(data: seq<byte>, slots: seq<PageSlot>)
    requires SLOT_SIZE * |slots| <= |data|
    ensures forall j {:trigger WriteDirectory(data, slots)[j]} | SLOT_SIZE * |slots| <= j < |data| ::
              WriteDirectory(data, slots)[j] == data[j]
  {
  }

  lemma BytesAboveSlot(data: seq<byte>, k: nat, slot: PageSlot)
    requires SLOT_SIZE * (k + 1) <= |data|
    ensures forall j {:trigger PutSlot(data, k, slot)[j]} | SLOT_SIZE * (k + 1) <= j < |data| ::
              PutSlot(data, k, slot)[j] == data[j]
  {
  }

  // The bytes above the directory while slot s is being deleted.
  lemma RenumberedBytes(p: PageState, s: SlotId)
    requires p.WellFormed() && p.Live(s)
    ensures var hole := p.Slots()[s - 1];
            forall j {:trigger Renumbered(p, s)[j]} | p.lower <= j < DATA_SIZE ::
              Renumbered(p, s)[j] == if hole.offset <= j < hole.End() then 0 else p.data[j]
  {
    var hole := p.Slots()[s - 1];
    hide Splice, WriteDirectory;
    SpliceBytes(p.data, hole.offset, Zeros(hole.length));
    BytesAboveDirectory(Splice(p.data, hole.offset, Zeros(hole.length)), Shifted(p.Slots(), s - 1));
  }

  lemma ShiftedBytes(data: seq<byte>, erased: seq<byte>, moved: seq<byte>,
                     upper: nat, offset: nat, length: nat, from: nat, bytes: nat)
    requires |data| == |erased| == DATA_SIZE && from + length + bytes <= DATA_SIZE
    requires forall j | upper <= j < DATA_SIZE :: erased[j] == if offset <= j < offset + length then 0 else data[j]
    requires length == 0 || (upper <= offset && bytes == offset - upper && (bytes > 0 ==> from == upper))
    requires moved == MoveBlock(erased, from, from + length, bytes)
    ensures forall j {:trigger moved[j]} | upper + length <= j < DATA_SIZE ::
              moved[j] == if j < offset + length then data[j - length] else data[j]
  {
    forall j | upper + length <= j < DATA_SIZE
      ensures moved[j] == if j < offset + length then data[j - length] else data[j]
    {
      if from + length <= j < from + length + bytes {
        assert moved[j] == erased[j - length];
      } else {
        assert moved[j] == erased[j];
      }
    }
  }

  lemma MovedBytes(p: PageState, s: SlotId)
    requires p.WellFormed() && p.Live(s) && p.Settled(s) && p.MoveClear(s)
    ensures var hole := p.Slots()[s - 1];
            forall j {:trigger Moved(p, s)[j]} | p.upper + hole.length <= j < DATA_SIZE ::
              Moved(p, s)[j] == if j < hole.End() then p.data[j - hole.length] else p.data[j]
  {
    hide Renumbered, MoveBlock, Tiled, Directory, LowestBelow, BytesBelow;
    var hole := p.Slots()[s - 1];
    SettledBlock(p, s);
    RenumberedBytes(p, s);
    var from, bytes := LowestBelow(p.Slots(), hole.offset), BytesBelow(p.Slots(), hole.offset);
    ShiftedBytes(p.data, Renumbered(p, s), Moved(p, s), p.upper, hole.offset, hole.length, from, bytes);
  }

  // Every byte of a surviving record arrives where its directory entry now points.
  lemma VacatedBytes(p: PageState, s: SlotId)
    requires p.WellFormed() && p.Live(s) && p.Settled(s) && p.MoveClear(s)
    ensures var hole := p.Slots()[s - 1];
            forall j {:trigger Vacated(p, s).data[j]} | p.upper + hole.length <= j < DATA_SIZE ::
              Vacated(p, s).data[j] == if j < hole.End() then p.data[j - hole.length] else p.data[j]
  {
    hide PutSlot, Moved;
    MovedBytes(p, s);
    BytesAboveSlot(Moved(p, s), s - 1, FREE_SLOT);
  }

  lemma VacatedEntry(p: PageState, s: SlotId, t: SlotId)
    requires p.WellFormed() && p.Live(s) && p.MoveClear(s) && 1 <= t <= p.numSlots && t != s
    ensures var q := Vacated(p, s);
            && q.numSlots == p.numSlots
            && InPage(q.Slots())
            && q.Slots()[t - 1] == ShiftedSlot(p.Slots()[t - 1], p.Slots()[s - 1])
  {
    VacatedShape(p, s);
  }

  lemma SliceArrives(before: seq<byte>, start: nat, after: seq<byte>, at: nat, n: nat)
    requires start + n <= |before| && at + n <= |after|
    requires forall j {:trigger after[j]} | at <= j < at + n :: after[j] == before[j - at + start]
    ensures after[at..at + n] == before[start..start + n]
  {
  }

  lemma VacatedRecord(p: PageState, s: SlotId, t: SlotId)
    requires p.WellFormed() && p.Live(s) && 1 <= t <= p.numSlots && t != s && p.Settled(s) && p.MoveClear(s)
    ensures var q := Vacated(p, s);
            && InPage(q.Slots())
            && q.Live(t) == p.Live(t)
            && (p.Live(t) ==> q.Record(t) == p.Record(t))
  {
    hide Tiled, Vacated, Directory, BlankWhenUnused, EndsUsed;
    var q, hole, slot := Vacated(p, s), p.Slots()[s - 1], p.Slots()[t - 1];
    VacatedEntry(p, s, t);
    if p.Live(t) {
      SurvivorPlace(p.Slots(), p.upper, s - 1, t - 1);
      VacatedBytes(p, s);
      SliceArrives(p.data, slot.offset, q.data, ShiftedSlot(slot, hole).offset, slot.length);
    }
  }

  lemma CompactedShape(p: PageState)
    requires p.Readable() && p.lower == SLOT_SIZE * p.numSlots && p.numFree == CountUnused(p.Slots())
    requires Tiled(p.Slots(), p.upper) && p.upper <= DATA_SIZE
    ensures var q := Compacted(p);
            && q.Slots() == TrimTail(p.Slots())
            && Tiled(q.Slots(), q.upper)
            && q.numFree == CountUnused(q.Slots())
            && q.numSlots == |TrimTail(p.Slots())| <= p.numSlots && q.numFree == p.numFree - (p.numSlots - q.numSlots)
            && q.lower == SLOT_SIZE * q.numSlots && q.upper == p.upper
            && q.pageNumber == p.pageNumber && q.nextPage == p.nextPage
  {
    hide Tiled;
    var q := Compacted(p);
    assert q.Slots() == TrimTail(p.Slots()) == p.Slots()[..q.numSlots];
    CountTrimmed(p.Slots());
    PrefixTiles(p.Slots(), q.numSlots, p.upper);
  }

  // Deletion keeps the page well formed and returns exactly the record's bytes and the trimmed entries.
  lemma DeletedWellFormed(p: PageState, s: SlotId)
    requires p.WellFormed() && p.Live(s) && p.MoveClear(s)
    ensures var q := Deleted(p, s);
            && q.WellFormed()
            && q.numSlots == (if s == p.numSlots then |TrimTail(WithoutRecord(p.Slots(), s - 1))| else p.numSlots)
            && q.FreeSpace() == p.FreeSpace() + p.Slots()[s - 1].length + SLOT_SIZE * (p.numSlots - q.numSlots)
  {
    hide Tiled, Directory, Vacated, Compacted;
    VacatedShape(p, s);
    VacatedHeader(p, s);
    if s == p.numSlots {
      CompactedShape(Vacated(p, s));
    }
  }

  lemma CompactedRecords(v: PageState)
    requires v.Readable() && v.lower == SLOT_SIZE * v.numSlots && v.numFree == CountUnused(v.Slots())
    requires InPage(v.Slots())
    ensures InPage(Compacted(v).Slots()) && Compacted(v).Records() == v.Records()
  {
    var q := Compacted(v);
    assert q.Slots() == TrimTail(v.Slots()) == v.Slots()[..q.numSlots];
    forall t
      ensures q.Live(t) <==> v.Live(t)
      ensures q.Live(t) ==> q.Slots()[t - 1] == v.Slots()[t - 1]
    {
    }
  }

  // Slot t means the same on both pages.
  ghost predicate SameAt(p: PageState, q: PageState, t: SlotId)
    requires p.Readable() && InPage(p.Slots()) && q.Readable() && InPage(q.Slots())
  {
    p.Live(t) == q.Live(t) && (p.Live(t) ==> p.Record(t) == q.Record(t))
  }

  lemma RecordsWithout(p: PageState, q: PageState, s: SlotId)
    requires p.Readable() && InPage(p.Slots()) && q.Readable() && InPage(q.Slots())
    requires !q.Live(s) && forall t: SlotId | t != s :: SameAt(p, q, t)
    ensures q.Records() == p.Records() - {s}
  {
    hide Directory, InPage;
    assert forall t: SlotId | t != s && (t in p.Records() || t in q.Records()) :: SameAt(p, q, t);
  }

  lemma RecordsWith(p: PageState, q: PageState, s: SlotId, record: seq<byte>)
    requires p.Readable() && InPage(p.Slots()) && q.Readable() && InPage(q.Slots())
    requires q.Live(s) && q.Record(s) == record && forall t: SlotId | t != s :: SameAt(p, q, t)
    ensures q.Records() == p.Records()[s := record]
  {
    hide Directory, InPage;
    assert forall t: SlotId | t != s && (t in p.Records() || t in q.Records()) :: SameAt(p, q, t);
  }

  lemma VacatedRecords(p: PageState, s: SlotId)
    requires p.WellFormed() && p.Live(s) && p.Settled(s) && p.MoveClear(s)
    ensures InPage(Vacated(p, s).Slots()) && Vacated(p, s).Records() == p.Records() - {s}
  {
    hide Tiled, InPage, Directory, Vacated, BlankWhenUnused, EndsUsed;
    RecordsInPage(p);
    VacatedShape(p, s);
    VacatedHeader(p, s);
    forall t: SlotId | t != s
      ensures SameAt(p, Vacated(p, s), t)
    {
      if 1 <= t <= p.numSlots {
        VacatedRecord(p, s, t);
      }
    }
    RecordsWithout(p, Vacated(p, s), s);
  }

  // Deleting a record removes exactly that record: the others read back byte for byte.
  lemma DeletedRecords(p: PageState, s: SlotId)
    requires p.WellFormed() && p.Live(s) && p.Settled(s)
    ensures p.MoveClear(s)
    ensures Deleted(p, s).WellFormed() && Deleted(p, s).Records() == p.Records() - {s}
  {
    hide Tiled, Directory, Vacated, Compacted, BlankWhenUnused, EndsUsed;
    SettledBlock(p, s);
    DeletedWellFormed(p, s);
    VacatedRecords(p, s);
    if s == p.numSlots {
      VacatedShape(p, s);
      VacatedHeader(p, s);
      CompactedRecords(Vacated(p, s));
    }
  }

  // ----- placing a record into an unused slot -----

  // A page that is well formed but for its unused slot s, which has room for n bytes.
  ghost predicate Ready(p: PageState, s: SlotId, n: nat) {
    && p.Readable()
    && 1 <= s <= p.numSlots && !p.Slots()[s - 1].Used()
    && p.lower == SLOT_SIZE * p.numSlots && p.lower + n <= p.upper <= DATA_SIZE
    && InPage(p.Slots()) && Tiled(p.Slots(), p.upper)
    && p.numFree == CountUnused(p.Slots())
    && BlankWhenUnused(p.Slots()[s - 1 := FREE_SLOT])
    && (s == p.numSlots || EndsUsed(p.Slots()))
  }

  lemma ReadyHasFreeSlot(p: PageState, s: SlotId, n: nat)
    requires Ready(p, s, n)
    ensures p.numFree > 0
  {
    CountIsZeroIffAllUsed(p.Slots());
  }

  lemma PlacedBytes(p: PageState, s: SlotId, record: seq<byte>)
    requires Ready(p, s, |record|) && p.numFree > 0
    ensures var q := PlaceRecord(p, s, record);
            && q.Slots() == p.Slots()[s - 1 := PageSlot(1, p.upper - |record|, |record|)]
            && q.data[q.upper..p.upper] == record
            && forall j {:trigger q.data[j]} | p.upper <= j < DATA_SIZE :: q.data[j] == p.data[j]
  {
    hide Tiled, PutSlot, Splice, BlankWhenUnused, EndsUsed, Directory;
    var q := PlaceRecord(p, s, record);
    var slot := PageSlot(1, p.upper - |record|, |record|);
    var entered := PutSlot(p.data, s - 1, slot);
    ReadBackInDirectory(p.data, p.numSlots, s - 1, slot);
    SpliceBytes(entered, q.upper, record);
    SameBytesSameDirectory(entered, q.data, p.numSlots);
    BytesAboveSlot(p.data, s - 1, slot);
    SliceArrives(record, 0, q.data, q.upper, |record|);
  }

  lemma PlacedWellFormed(p: PageState, s: SlotId, record: seq<byte>)
    requires Ready(p, s, |record|) && p.numFree > 0
    ensures PlaceRecord(p, s, record).WellFormed()
  {
    hide Tiled, PutSlot, Splice, Directory;
    PlacedBytes(p, s, record);
    NewRecordTiles(p.Slots(), p.upper, s - 1, 1, |record|);
    CountAfterUpdate(p.Slots(), s - 1, PageSlot(1, p.upper - |record|, |record|));
    var blank, placed := p.Slots()[s - 1 := FREE_SLOT], PlaceRecord(p, s, record).Slots();
    assert forall k | 0 <= k < |placed| && k != s - 1 :: placed[k] == blank[k];
  }

  lemma RecordsInPage(p: PageState)
    requires p.WellFormed()
    ensures InPage(p.Slots())
  {
  }

  lemma PlacedRecords(p: PageState, s: SlotId, record: seq<byte>)
    requires Ready(p, s, |record|) && p.numFree > 0
    ensures var q := PlaceRecord(p, s, record);
            InPage(q.Slots()) && q.Records() == p.Records()[s := record]
  {
    hide PlaceRecord, Directory, BlankWhenUnused, EndsUsed, CountUnused;
    PlacedBytes(p, s, record);
    PlacedWellFormed(p, s, record);
    var q := PlaceRecord(p, s, record);
    RecordsInPage(q);
    forall t: SlotId | t != s
      ensures SameAt(p, q, t)
    {
      if p.Live(t) {
        var slot := p.Slots()[t - 1];
        assert slot.Occupied() ==> p.upper <= slot.offset;
        SliceArrives(p.data, slot.offset, q.data, slot.offset, slot.length);
      }
    }
    RecordsWith(p, q, s, record);
  }

  // ----- insertion -----

  lemma ReuseIsReady(p: PageState, n: nat)
    requires p.WellFormed() && p.HasSpaceFor(n) && p.numFree > 0
    ensures AvailableSlot(p) == (p, FirstUnused(p.Slots()) + 1)
    ensures var s := AvailableSlot(p).1; Ready(p, s, n) && s < p.numSlots
  {
    CountIsZeroIffAllUsed(p.Slots());
  }

  lemma FreshIsReady(p: PageState, n: nat)
    requires p.WellFormed() && p.HasSpaceFor(n) && p.numFree == 0
    ensures var (q, s) := AvailableSlot(p);
            && s == q.numSlots == p.numSlots + 1
            && q == p.(numSlots := s, numFree := 1, lower := SLOT_SIZE * s)
            && q.Slots() == p.Slots() + [SlotAt(p.data, p.numSlots)]
            && (p.FreshSlotReadsUnused() ==> Ready(q, s, n))
  {
    hide Tiled, SlotAt;
    RecordsInPage(p);
    var q := AvailableSlot(p).0;
    assert q.Slots() == p.Slots() + [SlotAt(p.data, p.numSlots)];
    CountIsZeroIffAllUsed(p.Slots());
    if p.FreshSlotReadsUnused() {
      assert q.Slots()[..p.numSlots] == p.Slots();
      PrefixTiles(q.Slots(), p.numSlots, p.upper);
    }
  }

  lemma FreshRecords(p: PageState, n: nat)
    requires p.WellFormed() && p.HasSpaceFor(n) && p.numFree == 0 && p.FreshSlotReadsUnused()
    ensures var q := AvailableSlot(p).0; InPage(q.Slots()) && q.Records() == p.Records()
  {
    hide Tiled, Directory, BlankWhenUnused, EndsUsed;
    FreshIsReady(p, n);
    var q := AvailableSlot(p).0;
    assert InPage(p.Slots());
    assert !q.Live(q.numSlots) && forall t: SlotId | t != q.numSlots :: SameAt(p, q, t);
    RecordsWithout(p, q, q.numSlots);
  }

  // Insertion finds room exactly when the header says so, hands out a slot that was not live, stores
  // the record there and disturbs no other. It can still fail after having enlarged the directory.
  lemma InsertCorrect(p: PageState, record: seq<byte>)
    requires p.WellFormed()
    ensures var r := Insert(p, record);
            && (r.status == InsufficientSpace <==> !p.HasSpaceFor(|record|))
            && (r.status == Ok <==> p.HasSpaceFor(|record|) && (p.numFree > 0 || p.FreshSlotReadsUnused()))
            && (r.status == InsufficientSpace ==> r.page == p)
            && (r.status == Ok || r.status == InsufficientSpace || r.status == SlotInUse)
            && (r.page.WellFormed() <==> r.status != SlotInUse)
            && (r.status == SlotInUse ==>
                  r.page == p.(numSlots := p.numSlots + 1, numFree := 1, lower := p.lower + SLOT_SIZE))
            && (r.status == Ok ==>
                && r.slot !in p.Records()
                && r.page.Records() == p.Records()[r.slot := record])
  {
    hide Tiled, PlaceRecord, Directory, BlankWhenUnused, EndsUsed;
    if p.HasSpaceFor(|record|) {
      var (q, s) := AvailableSlot(p);
      if p.numFree > 0 {
        ReuseIsReady(p, |record|);
      } else {
        FreshIsReady(p, |record|);
        if p.FreshSlotReadsUnused() {
          FreshRecords(p, |record|);
        }
      }
      if p.numFree > 0 || p.FreshSlotReadsUnused() {
        ReadyHasFreeSlot(q, s, |record|);
        PlacedWellFormed(q, s, record);
        PlacedRecords(q, s, record);
      } else {
        FullDirectoryHasNoFreeSlot(p);
      }
    }
  }

  // After the failure the header counts a free slot that reads as used.
  lemma FullDirectoryHasNoFreeSlot(p: PageState)
    requires p.WellFormed() && p.numFree == 0 && p.HasSpaceFor(0) && !p.FreshSlotReadsUnused()
    ensures !AvailableSlot(p).0.WellFormed()
  {
    FreshIsReady(p, 0);
    CountIsZeroIffAllUsed(p.Slots());
    CountIsZeroIffAllUsed(AvailableSlot(p).0.Slots());
  }

  // ----- update -----

  lemma VacatedIsReady(p: PageState, s: SlotId, n: nat)
    requires p.WellFormed() && p.Live(s) && p.MoveClear(s) && n <= p.FreeSpace() + p.Slots()[s - 1].length
    ensures Ready(Vacated(p, s), s, n)
  {
    hide Tiled, Directory, Vacated;
    VacatedShape(p, s);
    VacatedHeader(p, s);
  }

  // An update succeeds exactly when the record fits in the free space and its own old bytes; it keeps
  // the record id and changes no other record.
  lemma UpdateCorrect(p: PageState, id: RecordId, record: seq<byte>)
    requires p.WellFormed() && 1 <= id.slotNumber <= p.numSlots
    requires Valid(p, id) && FitsInstead(p, id.slotNumber, |record|) ==> p.EntryClear(id.slotNumber)
    ensures var r, s := Update(p, id, record), id.slotNumber;
            && (r.status != Ok || p.MoveClear(s) ==> r.page.WellFormed())
            && (r.status == Ok <==> Valid(p, id) && FitsInstead(p, s, |record|))
            && (r.status == InvalidRecord <==> !Valid(p, id))
            && (r.status == Ok || r.status == InvalidRecord || r.status == InsufficientSpace)
            && (r.status != Ok ==> r.page == p)
            && (r.status == Ok && p.Settled(s) ==>
                  r.page.WellFormed() && r.page.Records() == p.Records()[s := record])
  {
    hide Tiled, PlaceRecord, Directory, BlankWhenUnused, EndsUsed, Vacated, PageState.Settled, PageState.MoveClear,
         PageState.EntryClear, PageState.Records;
    var s := id.slotNumber;
    if Valid(p, id) && FitsInstead(p, s, |record|) && p.Settled(s) {
      SettledBlock(p, s);
    }
    if Valid(p, id) && FitsInstead(p, s, |record|) && p.MoveClear(s) {
      UpdatedRecords(p, id, record);
      if p.Settled(s) {
        VacatedRecords(p, s);
      }
    }
  }

  // An update that fits is a deletion that keeps the slot, and an insertion into it.
  lemma UpdatedRecords(p: PageState, id: RecordId, record: seq<byte>)
    requires p.WellFormed() && 1 <= id.slotNumber <= p.numSlots && Valid(p, id)
    requires FitsInstead(p, id.slotNumber, |record|) && p.MoveClear(id.slotNumber)
    ensures var q, v := Update(p, id, record).page, Vacated(p, id.slotNumber);
            && q.WellFormed()
            && InPage(q.Slots()) && InPage(v.Slots()) && q.Records() == v.Records()[id.slotNumber := record]
  {
    hide Tiled, PlaceRecord, Directory, BlankWhenUnused, EndsUsed, Vacated, PageState.MoveClear, PageState.Records;
    var s := id.slotNumber;
    ClearEntry(p, s);
    VacatedIsReady(p, s, |record|);
    ReadyHasFreeSlot(Vacated(p, s), s, |record|);
    PlacedWellFormed(Vacated(p, s), s, record);
    PlacedRecords(Vacated(p, s), s, record);
  }

  // ----- reading -----

  // Within the directory, what is fetched is what the map of the page's records holds.
  lemma FetchCorrect(p: PageState, id: RecordId)
    requires p.WellFormed() && 1 <= id.slotNumber <= p.numSlots
    ensures InPage(p.Slots())
    ensures var (status, record) := Fetch(p, id);
            && status == (if id.pageNumber == p.pageNumber && id.slotNumber in p.Records() then Ok else InvalidRecord)
            && (status == Ok ==> record == p.Records()[id.slotNumber])
  {
    hide Tiled, SlotAt, CountUnused, BlankWhenUnused, EndsUsed;
    RecordsInPage(p);
    assert p.Slots()[id.slotNumber - 1] == SlotAt(p.data, id.slotNumber - 1);
  }

  // Beyond the directory, the bytes where its next entries would lie are taken for an entry. What it names is cut
  // off at the end of the page, or refused if it starts after it.
  lemma FetchBeyond(p: PageState, id: RecordId)
    requires p.WellFormed() && id.slotNumber > p.numSlots && SLOT_SIZE * id.slotNumber <= DATA_SIZE
    ensures var (status, record) := Fetch(p, id);
            var at := SLOT_SIZE * (id.slotNumber - 1);
            var offset, length := Word(p.data[at + 2], p.data[at + 3]), Word(p.data[at + 4], p.data[at + 5]);
            && (status == InvalidRecord <==> id.pageNumber != p.pageNumber || p.data[at] == 0)
            && (status == InvalidRecord || (status == OutOfRange <==> offset > DATA_SIZE))
            && (status == InvalidRecord || status == OutOfRange || status == Ok)
            && (status == Ok ==>
                  && |record| == (if offset + length <= DATA_SIZE then length else DATA_SIZE - offset)
                  && forall i | 0 <= i < |record| :: record[i] == p.data[offset + i])
  {
  }

  // ----- conservation -----

  function LiveBytes(slots: seq<PageSlot>): nat {
    if slots == [] then 0
    else LiveBytes(slots[..|slots| - 1]) + if slots[|slots| - 1].Used() then slots[|slots| - 1].length else 0
  }

  lemma {:induction false} LiveBytesBelowEnd(slots: seq<PageSlot>)
    requires InPage(slots)
    ensures LiveBytes(slots) == BytesBelow(slots, DATA_SIZE)
  {
    if slots != [] {
      var init := slots[..|slots| - 1];
      assert forall k | 0 <= k < |init| :: init[k] == slots[k];
      LiveBytesBelowEnd(init);
    }
  }

  // Directory, free space and records together are the whole page.
  lemma SpaceConserved(p: PageState)
    requires p.WellFormed()
    ensures SLOT_SIZE * p.numSlots + p.FreeSpace() + LiveBytes(p.Slots()) == DATA_SIZE
  {
    LiveBytesBelowEnd(p.Slots());
    BytesBelowBoundary(p.Slots(), p.upper, DATA_SIZE);
  }
}
