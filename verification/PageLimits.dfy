// Where the page operations fall short of what they promise, and how exactly they undo each other.
module PageLimits {
  import opened Types
  import opened SlotBytes
  import opened SlotLayout
  import opened SlottedPage
  import opened PageCorrectness

  // ----- what deletion does not do right -----

  // If an empty record kept an offset below the free space bound, the block moved is the wrong one and
  // the last byte of the record just below the erased one is lost.
  lemma UnsettledLosesByte(p: PageState, s: SlotId)
    requires p.WellFormed() && p.Live(s) && p.EntryClear(s) && !p.Settled(s)
    ensures var hole := p.Slots()[s - 1];
            && p.upper < hole.offset
            && Vacated(p, s).data[hole.End() - 1] == 0
  {
    hide Tiled, Renumbered, PutSlot, Directory, Splice, LowestBelow, BytesBelow, PageState.Settled, Covered,
         PageState.EntryClear;
    UnsettledBlock(p, s);
    var slots := p.Slots();
    var hole := slots[s - 1];
    var from, bytes := LowestBelow(slots, hole.offset), BytesBelow(slots, hole.offset);
    RenumberedBytes(p, s);
    SpliceBytes(Renumbered(p, s), from + hole.length, Renumbered(p, s)[from..from + bytes]);
    BytesAboveSlot(Moved(p, s), s - 1, FREE_SLOT);
  }

  lemma UnsettledBlock(p: PageState, s: SlotId)
    requires p.WellFormed() && p.Live(s) && !p.Settled(s)
    ensures var hole := p.Slots()[s - 1];
            var from, bytes := LowestBelow(p.Slots(), hole.offset), BytesBelow(p.Slots(), hole.offset);
            && hole.length > 0 && from < p.upper < hole.offset && hole.End() <= DATA_SIZE
            && bytes == hole.offset - p.upper && from + hole.length + bytes <= DATA_SIZE
  {
    hide Directory, BytesBelow;
    BlockFits(p.Slots(), p.upper, s - 1);
  }

  // Settled or not, this is the block that is moved: as many bytes as lie between the free space and the hole, from
  // the least offset of any record below the hole, be it an empty one. It goes up by the length of the hole.
  lemma BlockMoved(p: PageState, s: SlotId)
    requires p.WellFormed() && p.Live(s) && p.EntryClear(s) && p.Slots()[s - 1].length > 0
    requires p.upper < p.Slots()[s - 1].offset
    ensures p.Slots()[s - 1].offset <= DATA_SIZE && SLOT_SIZE * s <= DATA_SIZE
    ensures var hole := p.Slots()[s - 1];
            var from, bytes := LowestBelow(p.Slots(), hole.offset), hole.offset - p.upper;
            var to := from + hole.length;
            && (exists k | 0 <= k < p.numSlots :: p.Slots()[k].Used() && p.Slots()[k].offset == from < hole.offset)
            && (forall k | 0 <= k < p.numSlots && p.Slots()[k].Used() :: from <= p.Slots()[k].offset)
            && to + bytes <= DATA_SIZE
            && forall j {:trigger Vacated(p, s).data[j]} |
                 0 <= j < SLOT_SIZE * (s - 1) || SLOT_SIZE * s <= j < DATA_SIZE ::
                 Vacated(p, s).data[j] == Renumbered(p, s)[if to <= j < to + bytes then j - hole.length else j]
  {
    hide Tiled, Renumbered, PutSlot, Directory, LowestBelow, BytesBelow, PageState.Settled, Covered,
         PageState.EntryClear, BlankWhenUnused, EndsUsed, CountUnused;
    var slots := p.Slots();
    var hole := slots[s - 1];
    var from, bytes := LowestBelow(slots, hole.offset), BytesBelow(slots, hole.offset);
    BlockFits(slots, p.upper, s - 1);
    RecordsInPage(p);
    SlotInPage(slots, s - 1);
    SpliceBytes(Renumbered(p, s), from + hole.length, Renumbered(p, s)[from..from + bytes]);
    BytesBesideSlot(Moved(p, s), s - 1, FREE_SLOT);
  }

  // Before that the entries of all records below the hole have been shifted.
  lemma EntriesShifted(p: PageState, s: SlotId)
    requires p.WellFormed() && p.Live(s)
    ensures InPage(p.Slots()) && Directory(Renumbered(p, s), p.numSlots) == Shifted(p.Slots(), s - 1)
  {
    hide Directory, WriteDirectory, Splice, Shifted, BlankWhenUnused, EndsUsed, CountUnused, Covered;
    var hole := p.Slots()[s - 1];
    ReadBackDirectory(Splice(p.data, hole.offset, Zeros(hole.length)), Shifted(p.Slots(), s - 1));
  }

  lemma BytesBesideSlot(data: seq<byte>, k: nat, slot: PageSlot)
    requires SLOT_SIZE * (k + 1) <= |data|
    ensures forall j {:trigger PutSlot(data, k, slot)[j]} |
              0 <= j < SLOT_SIZE * k || SLOT_SIZE * (k + 1) <= j < |data| :: PutSlot(data, k, slot)[j] == data[j]
  {
  }

  // The record that ends where the erased one starts.
  lemma RecordBelow(slots: seq<PageSlot>, upper: nat, k: nat) returns (j: nat)
    requires Tiled(slots, upper) && k < |slots| && slots[k].Occupied() && upper < slots[k].offset
    ensures j < |slots| && j != k && slots[j].Occupied() && slots[j].End() == slots[k].offset
  {
    assert Covered(slots, slots[k].offset - 1);
    j :| 0 <= j < |slots| && slots[j].Covers(slots[k].offset - 1);
    assert j != k ==> Apart(slots[j], slots[k]);
  }

  // So where the block lands on no directory entry, and the byte below the hole is not 0, deletion is right exactly on
  // settled pages.
  lemma DeletionRightIffSettled(p: PageState, s: SlotId)
    requires p.WellFormed() && p.Live(s) && p.MoveClear(s)
    requires p.Slots()[s - 1].offset > 0 ==> p.data[p.Slots()[s - 1].offset - 1] != 0
    ensures Deleted(p, s).WellFormed()
    ensures Deleted(p, s).Records() == p.Records() - {s} <==> p.Settled(s)
  {
    hide Directory, BlankWhenUnused, EndsUsed, Vacated, Compacted, EmptyRecordsFrom;
    DeletedWellFormed(p, s);
    if p.Settled(s) {
      DeletedRecords(p, s);
    } else {
      var t := LosesRecord(p, s);
      VacatedShape(p, s);
      VacatedHeader(p, s);
      CompactedRecords(Vacated(p, s));
    }
  }

  lemma LosesRecord(p: PageState, s: SlotId) returns (t: SlotId)
    requires p.WellFormed() && p.Live(s) && p.MoveClear(s) && !p.Settled(s)
    requires p.Slots()[s - 1].offset > 0 ==> p.data[p.Slots()[s - 1].offset - 1] != 0
    ensures InPage(p.Slots()) && InPage(Vacated(p, s).Slots())
    ensures t != s && t in p.Records() && t in Vacated(p, s).Records() && Vacated(p, s).Records()[t] != p.Records()[t]
  {
    hide Directory, BlankWhenUnused, EndsUsed, Vacated, PageState.Settled, PageState.MoveClear;
    RecordsInPage(p);
    UnsettledBlock(p, s);
    var j := RecordBelow(p.Slots(), p.upper, s - 1);
    t := j + 1;
    LostRecord(p, s, t);
  }

  lemma LostRecord(p: PageState, s: SlotId, t: SlotId)
    requires p.WellFormed() && p.Live(s) && p.MoveClear(s) && !p.Settled(s)
    requires p.Live(t) && t != s && p.Slots()[t - 1].Occupied() && p.Slots()[t - 1].End() == p.Slots()[s - 1].offset
    requires p.data[p.Slots()[s - 1].offset - 1] != 0
    ensures InPage(Vacated(p, s).Slots()) && Vacated(p, s).Live(t) && Vacated(p, s).Record(t) != p.Record(t)
  {
    hide Tiled, InPage, Directory, Vacated, BlankWhenUnused, EndsUsed, PageState.Settled, PageState.MoveClear;
    RecordsInPage(p);
    ClearEntry(p, s);
    UnsettledLosesByte(p, s);
    VacatedEntry(p, s, t);
    LastByteDiffers(p, Vacated(p, s), t);
  }

  lemma LastByteDiffers(p: PageState, q: PageState, t: SlotId)
    requires p.Readable() && p.Live(t) && InPage(p.Slots()) && q.Readable() && q.Live(t) && InPage(q.Slots())
    requires p.Slots()[t - 1].length == q.Slots()[t - 1].length > 0
    requires p.data[p.Slots()[t - 1].End() - 1] != q.data[q.Slots()[t - 1].End() - 1]
    ensures p.Record(t) != q.Record(t)
  {
    hide Directory;
    var n := p.Slots()[t - 1].length;
    assert p.Record(t)[n - 1] != q.Record(t)[n - 1];
  }

  // So is an update that fits: it loses the same byte.
  lemma UpdateRightIffSettled(p: PageState, id: RecordId, record: seq<byte>)
    requires p.WellFormed() && 1 <= id.slotNumber <= p.numSlots && Valid(p, id)
    requires FitsInstead(p, id.slotNumber, |record|) && p.MoveClear(id.slotNumber)
    requires var hole := p.Slots()[id.slotNumber - 1]; hole.offset > 0 ==> p.data[hole.offset - 1] != 0
    ensures Update(p, id, record).page.WellFormed() && Update(p, id, record).status == Ok
    ensures Update(p, id, record).page.Records() == p.Records()[id.slotNumber := record] <==> p.Settled(id.slotNumber)
  {
    hide Tiled, Directory, BlankWhenUnused, EndsUsed, Vacated, PageState.Settled, PlaceRecord, PageState.MoveClear,
         PageState.Records, Update;
    var s := id.slotNumber;
    ClearEntry(p, s);
    UpdateCorrect(p, id, record);
    UpdatedRecords(p, id, record);
    RecordsInPage(p);
    if !p.Settled(s) {
      var t := LosesRecord(p, s);
      assert Update(p, id, record).page.Records()[t] == Vacated(p, s).Records()[t];
      assert p.Records()[s := record][t] == p.Records()[t];
    }
  }

  // ----- wherever the block lands, as long as the program does not read what it has overwritten -----

  // No record but that of slot s has a zero byte.
  ghost predicate NonzeroBut(p: PageState, s: SlotId)
    requires p.Readable() && InPage(p.Slots())
  {
    forall t | t in p.Records() && t != s :: 0 !in p.Records()[t]
  }

  // Deletion leaves a well-formed page with the other records.
  ghost predicate DeletesRightly(p: PageState, s: SlotId) {
    && p.WellFormed() && p.Live(s) && p.EntryClear(s)
    && Deleted(p, s).WellFormed() && Deleted(p, s).Records() == p.Records() - {s}
  }

  // The page has the record and room for the new bytes, and the update changes that record only.
  ghost predicate UpdatesRightly(p: PageState, id: RecordId, record: seq<byte>) {
    && p.WellFormed() && 1 <= id.slotNumber <= p.numSlots && Valid(p, id)
    && FitsInstead(p, id.slotNumber, |record|) && p.EntryClear(id.slotNumber)
    && Update(p, id, record).page.WellFormed()
    && Update(p, id, record).page.Records() == p.Records()[id.slotNumber := record]
  }

  lemma SlotInPage(slots: seq<PageSlot>, k: nat)
    requires InPage(slots) && k < |slots| && slots[k].Used()
    ensures slots[k].End() <= DATA_SIZE
  {
  }

  lemma CoveredAbove(p: PageState, b: nat)
    requires p.WellFormed() && p.upper <= b < DATA_SIZE
    ensures InPage(p.Slots()) && Covered(p.Slots(), b)
  {
    hide Directory, InPage;
  }

  // A byte above the free space belongs to a record.
  lemma ByteInRecord(p: PageState, b: nat) returns (t: SlotId)
    requires p.WellFormed() && p.upper <= b < DATA_SIZE
    ensures InPage(p.Slots()) && t in p.Records() && p.data[b] in p.Records()[t] && p.Slots()[t - 1].Covers(b)
  {
    hide Tiled, InPage, Directory, BlankWhenUnused, EndsUsed, CountUnused;
    CoveredAbove(p, b);
    var k :| 0 <= k < p.numSlots && p.Slots()[k].Covers(b);
    t := k + 1;
    assert p.Slots()[k].End() <= DATA_SIZE by { SlotInPage(p.Slots(), k); }
    assert p.Record(t)[b - p.Slots()[k].offset] == p.data[b];
  }

  lemma DeletedHeader(p: PageState, s: SlotId)
    requires p.WellFormed() && p.Live(s) && p.EntryClear(s)
    ensures Deleted(p, s).data == Vacated(p, s).data && Deleted(p, s).upper == p.upper + p.Slots()[s - 1].length
  {
    hide Tiled, Directory, Vacated, PageState.EntryClear, BlankWhenUnused, EndsUsed;
    VacatedHeader(p, s);
    if s == p.numSlots {
      ClearEntry(p, s);
      VacatedShape(p, s);
      CompactedShape(Vacated(p, s));
    }
  }

  // On an unsettled page a 0 ends up above the free space, where the other records hold none.
  lemma NonzeroDeletionIffSettled(p: PageState, s: SlotId)
    requires p.WellFormed() && p.Live(s) && p.EntryClear(s) && InPage(p.Slots()) && NonzeroBut(p, s)
    ensures DeletesRightly(p, s) <==> p.Settled(s)
  {
    hide Tiled, Directory, Deleted, Vacated, PageState.EntryClear, PageState.Settled, PageState.Records,
         BlankWhenUnused, EndsUsed, CountUnused;
    if p.Settled(s) {
      DeletedRecords(p, s);
    } else if DeletesRightly(p, s) {
      UnsettledLosesByte(p, s);
      UnsettledBlock(p, s);
      DeletedHeader(p, s);
      var _ := ByteInRecord(Deleted(p, s), p.Slots()[s - 1].End() - 1);
    }
  }

  // The bytes of the update above the place of the new record are those that deletion leaves.
  lemma UpdatedPlace(p: PageState, id: RecordId, record: seq<byte>)
    requires p.WellFormed() && 1 <= id.slotNumber <= p.numSlots && Valid(p, id)
    requires FitsInstead(p, id.slotNumber, |record|) && p.EntryClear(id.slotNumber)
    ensures var r, v, s := Update(p, id, record).page, Vacated(p, id.slotNumber), id.slotNumber;
            && Update(p, id, record).status == Ok
            && r.Readable() && r.numSlots == p.numSlots
            && r.upper == p.upper + p.Slots()[s - 1].length - |record|
            && r.Slots()[s - 1] == PageSlot(1, r.upper, |record|)
            && forall b {:trigger r.data[b]} | p.upper + p.Slots()[s - 1].length <= b < DATA_SIZE ::
                 r.data[b] == v.data[b]
  {
    hide Tiled, PutSlot, Splice, Directory, Vacated, PageState.EntryClear, BlankWhenUnused, EndsUsed, CountUnused;
    var s := id.slotNumber;
    VacatedHeader(p, s);
    var v := Vacated(p, s);
    var slot := PageSlot(1, v.upper - |record|, |record|);
    var entered := PutSlot(v.data, s - 1, slot);
    SpliceBytes(entered, v.upper - |record|, record);
    BytesAboveSlot(v.data, s - 1, slot);
    ReadBackInDirectory(v.data, p.numSlots, s - 1, slot);
    SameBytesSameDirectory(entered, Splice(entered, v.upper - |record|, record), p.numSlots);
  }

  lemma NonzeroUpdateIffSettled(p: PageState, id: RecordId, record: seq<byte>)
    requires p.WellFormed() && 1 <= id.slotNumber <= p.numSlots && Valid(p, id) && InPage(p.Slots())
    requires FitsInstead(p, id.slotNumber, |record|) && p.EntryClear(id.slotNumber)
    requires NonzeroBut(p, id.slotNumber)
    ensures UpdatesRightly(p, id, record) <==> p.Settled(id.slotNumber)
  {
    hide Tiled, Directory, Update, Vacated, PageState.EntryClear, PageState.Settled, PageState.Records,
         BlankWhenUnused, EndsUsed, CountUnused, PageState.MoveClear;
    var s := id.slotNumber;
    UpdateCorrect(p, id, record);
    UpdatedPlace(p, id, record);
    if !p.Settled(s) && UpdatesRightly(p, id, record) {
      UnsettledLosesByte(p, s);
      UnsettledBlock(p, s);
      var _ := ByteInRecord(Update(p, id, record).page, p.Slots()[s - 1].End() - 1);
    }
  }

  // The same page with other bytes above its directory.
  ghost predicate SameLayout(p: PageState, q: PageState) {
    && q.(data := p.data) == p
    && |q.data| == |p.data| && p.lower <= |p.data|
    && q.data[..p.lower] == p.data[..p.lower]
  }

  lemma SameLayoutFacts(p: PageState, q: PageState, s: SlotId)
    requires p.WellFormed() && p.Live(s) && SameLayout(p, q)
    ensures q.WellFormed() && q.Slots() == p.Slots() && q.Live(s)
    ensures (q.EntryClear(s) <==> p.EntryClear(s)) && (q.Settled(s) <==> p.Settled(s))
  {
    hide Tiled, BlankWhenUnused, EndsUsed, EmptyRecordsFrom, BytesBelow, LowestBelow;
    assert forall j | 0 <= j < p.lower :: q.data[..p.lower][j] == p.data[..p.lower][j];
    SameBytesSameDirectory(p.data, q.data, p.numSlots);
  }

  // The page with every byte above the directory a 1.
  function OnesAbove(p: PageState): PageState
    requires p.lower <= |p.data| == DATA_SIZE
  {
    p.(data := p.data[..p.lower] + seq(DATA_SIZE - p.lower, _ => 1))
  }

  lemma OnesAreNonzero(p: PageState, s: SlotId)
    requires p.WellFormed()
    ensures SameLayout(p, OnesAbove(p))
    ensures OnesAbove(p).WellFormed() ==> InPage(OnesAbove(p).Slots()) && NonzeroBut(OnesAbove(p), s)
  {
    hide Directory, BlankWhenUnused, EndsUsed;
    var q := OnesAbove(p);
    if q.WellFormed() {
      forall t | t in q.Records()
        ensures 0 !in q.Records()[t]
      {
        assert q.Slots()[t - 1].Occupied() ==> p.lower <= q.Slots()[t - 1].offset;
      }
    }
  }

  // On a settled page deletion is right whatever bytes the records hold; and it is right for all bytes only then.
  lemma DeletionAlwaysRightIffSettled(p: PageState, s: SlotId)
    requires p.WellFormed() && p.Live(s) && p.EntryClear(s)
    ensures p.Settled(s) <==> forall q | SameLayout(p, q) :: DeletesRightly(q, s)
  {
    hide Deleted, PageState.EntryClear, PageState.Settled, Tiled, Directory, PageState.Records, OnesAbove;
    if p.Settled(s) {
      forall q | SameLayout(p, q)
        ensures DeletesRightly(q, s)
      {
        SameLayoutFacts(p, q, s);
        DeletedRecords(q, s);
      }
    } else {
      OnesAreNonzero(p, s);
      SameLayoutFacts(p, OnesAbove(p), s);
      NonzeroDeletionIffSettled(OnesAbove(p), s);
    }
  }

  // The same holds of every update that fits.
  lemma UpdateAlwaysRightIffSettled(p: PageState, id: RecordId, record: seq<byte>)
    requires p.WellFormed() && 1 <= id.slotNumber <= p.numSlots && Valid(p, id)
    requires FitsInstead(p, id.slotNumber, |record|) && p.EntryClear(id.slotNumber)
    ensures p.Settled(id.slotNumber) <==> forall q | SameLayout(p, q) :: UpdatesRightly(q, id, record)
  {
    hide Update, PageState.EntryClear, PageState.Settled, Tiled, Directory, PageState.Records, OnesAbove,
         PageState.MoveClear;
    var s := id.slotNumber;
    if p.Settled(s) {
      forall q | SameLayout(p, q)
        ensures UpdatesRightly(q, id, record)
      {
        SameLayoutFacts(p, q, s);
        UpdateCorrect(q, id, record);
      }
    } else {
      OnesAreNonzero(p, s);
      SameLayoutFacts(p, OnesAbove(p), s);
      NonzeroUpdateIffSettled(OnesAbove(p), id, record);
    }
  }

  // ----- insertion undone by deletion -----

  // Deleting what was just inserted restores the header and the records; it restores the directory
  // unless an empty record's offset lies where the inserted record was put.
  lemma InsertThenDelete(p: PageState, record: seq<byte>)
    requires p.WellFormed() && Insert(p, record).status == Ok
    ensures Insert(p, record).page.WellFormed()
    ensures var (r, s) := (Insert(p, record).page, Insert(p, record).slot);
            && r.Live(s) && r.MoveClear(s) && Deleted(r, s).WellFormed()
            && var q := Deleted(r, s);
            && q.(data := p.data) == p
            && q.Records() == p.Records()
            && (q.Slots() == p.Slots() <==> record == [] || EmptyRecordsFrom(p.Slots(), p.upper - |record|))
  {
    hide Tiled, Directory, InPage, Insert, Deleted, BlankWhenUnused, EndsUsed, EmptyRecordsFrom;
    RecordsInPage(p);
    InsertCorrect(p, record);
    InsertedPlace(p, record);
    var (r, s) := (Insert(p, record).page, Insert(p, record).slot);
    DeletedRecords(r, s);
    WithoutInserted(p, record);
    PutThenRemove(p.Records(), s, record);
  }

  lemma PutThenRemove(m: map<SlotId, seq<byte>>, s: SlotId, record: seq<byte>)
    requires s !in m
    ensures m[s := record] - {s} == m
  {
  }

  lemma PlacedHeader(p: PageState, s: SlotId, record: seq<byte>)
    requires Ready(p, s, |record|) && p.numFree > 0
    ensures var q := PlaceRecord(p, s, record);
            && q.numSlots == p.numSlots && q.lower == p.lower && q.upper == p.upper - |record|
            && q.numFree == p.numFree - 1 && q.pageNumber == p.pageNumber && q.nextPage == p.nextPage
  {
  }

  lemma InsertedPlace(p: PageState, record: seq<byte>)
    requires p.WellFormed() && Insert(p, record).status == Ok
    ensures Insert(p, record).page.WellFormed()
    ensures var (r, s) := (Insert(p, record).page, Insert(p, record).slot);
            && InPage(r.Slots()) && r.Live(s) && r.Settled(s)
            && s <= p.numSlots + 1
            && r.numSlots == (if s <= p.numSlots then p.numSlots else p.numSlots + 1)
            && (s <= p.numSlots ==> s < p.numSlots && !p.Slots()[s - 1].Used())
            && (s > p.numSlots ==> p.numFree == 0)
            && r.upper == p.upper - |record| && r.pageNumber == p.pageNumber && r.nextPage == p.nextPage
            && r.lower == SLOT_SIZE * r.numSlots && r.numFree == (if s <= p.numSlots then p.numFree - 1 else 0)
            && r.Slots()[s - 1] == PageSlot(1, r.upper, |record|)
            && forall k | 0 <= k < p.numSlots && k != s - 1 :: r.Slots()[k] == p.Slots()[k]
  {
    hide Tiled, Directory, BlankWhenUnused, EndsUsed, PlaceRecord;
    InsertCorrect(p, record);
    var (q, s) := AvailableSlot(p);
    if p.numFree > 0 {
      ReuseIsReady(p, |record|);
    } else {
      FreshIsReady(p, |record|);
    }
    ReadyHasFreeSlot(q, s, |record|);
    PlacedHeader(q, s, record);
    PlacedBytes(q, s, record);
  }

  lemma WithoutInserted(p: PageState, record: seq<byte>)
    requires p.WellFormed() && Insert(p, record).status == Ok
    requires Insert(p, record).page.WellFormed()
    requires var (r, s) := (Insert(p, record).page, Insert(p, record).slot); r.Live(s) && r.MoveClear(s)
    ensures var q := Deleted(Insert(p, record).page, Insert(p, record).slot);
            && q.numSlots == p.numSlots && q.lower == p.lower && q.numFree == p.numFree && q.upper == p.upper
            && q.pageNumber == p.pageNumber && q.nextPage == p.nextPage
            && (q.Slots() == p.Slots() <==> record == [] || EmptyRecordsFrom(p.Slots(), p.upper - |record|))
  {
    hide Tiled, Directory, Vacated, Insert, BlankWhenUnused;
    InsertedPlace(p, record);
    var (r, s) := (Insert(p, record).page, Insert(p, record).slot);
    VacatedShape(r, s);
    VacatedHeader(r, s);
    RemovedAgain(p.Slots(), p.upper, r.Slots(), s - 1);
    var rest := Vacated(r, s).Slots();
    if s <= p.numSlots {
      assert rest[s - 1] == FREE_SLOT == p.Slots()[s - 1] by { BlankIsFree(p.Slots(), s - 1); }
    } else {
      assert EndsUsed(rest[..p.numSlots]);
      TrimOne(rest);
      CompactedShape(Vacated(r, s));
    }
  }

  lemma BlankIsFree(slots: seq<PageSlot>, k: nat)
    requires BlankWhenUnused(slots) && k < |slots| && !slots[k].Used()
    ensures slots[k] == FREE_SLOT
  {
  }

  // ----- bytes left behind in the free space -----

  lemma PlacedKeepsFreeBytes(p: PageState, s: SlotId, record: seq<byte>, b: nat)
    requires Ready(p, s, |record|) && p.numFree > 0 && p.lower <= b < p.upper - |record|
    ensures PlaceRecord(p, s, record).data[b] == p.data[b]
  {
    hide Tiled, PutSlot, Splice, BlankWhenUnused, EndsUsed, Directory;
    var slot := PageSlot(1, p.upper - |record|, |record|);
    SpliceBytes(PutSlot(p.data, s - 1, slot), p.upper - |record|, record);
    BytesAboveSlot(p.data, s - 1, slot);
  }

  lemma InsertKeepsFreeBytes(p: PageState, record: seq<byte>, b: nat)
    requires p.WellFormed() && Insert(p, record).status == Ok
    requires Insert(p, record).page.lower <= b < p.upper - |record|
    ensures |Insert(p, record).page.data| == DATA_SIZE && Insert(p, record).page.data[b] == p.data[b]
  {
    hide Tiled, Directory, BlankWhenUnused, EndsUsed, PlaceRecord;
    InsertCorrect(p, record);
    var (q, s) := AvailableSlot(p);
    if p.numFree > 0 {
      ReuseIsReady(p, |record|);
    } else {
      FreshIsReady(p, |record|);
    }
    ReadyHasFreeSlot(q, s, |record|);
    PlacedHeader(q, s, record);
    PlacedKeepsFreeBytes(q, s, record, b);
  }

  // Of an erased record, the bytes that the block does not reach stay zeros.
  lemma VacatedErased(p: PageState, s: SlotId, b: nat)
    requires p.WellFormed() && p.Live(s) && p.EntryClear(s) && p.Settled(s)
    requires p.Slots()[s - 1].length > 0 && p.Slots()[s - 1].offset <= b < p.upper + p.Slots()[s - 1].length
    ensures Vacated(p, s).data[b] == 0
  {
    hide Tiled, Renumbered, PutSlot, Directory, LowestBelow, BytesBelow, BlankWhenUnused, EndsUsed,
         PageState.EntryClear;
    SettledBlock(p, s);
    RenumberedBytes(p, s);
    RecordsInPage(p);
    SlotInPage(p.Slots(), s - 1);
    assert Renumbered(p, s)[b] == 0;
    var from, bytes := LowestBelow(p.Slots(), p.Slots()[s - 1].offset), BytesBelow(p.Slots(), p.Slots()[s - 1].offset);
    MoveKeepsBytesBelow(Renumbered(p, s), from, from + p.Slots()[s - 1].length, bytes, b);
    BytesAboveSlot(Moved(p, s), s - 1, FREE_SLOT);
  }

  lemma MoveKeepsBytesBelow(data: seq<byte>, from: nat, to: nat, n: nat, b: nat)
    requires from + n <= |data| && to + n <= |data| && (n > 0 ==> b < to) && b < |data|
    ensures MoveBlock(data, from, to, n)[b] == data[b]
  {
  }

  // Compaction does not clear the bytes it moves away from.
  lemma VacatedKeepsBytes(p: PageState, s: SlotId, b: nat)
    requires p.WellFormed() && p.Live(s) && p.Settled(s) && p.MoveClear(s)
    requires p.Slots()[s - 1].length > 0 && p.lower <= b < p.Slots()[s - 1].offset
    requires b < p.upper + p.Slots()[s - 1].length
    ensures Vacated(p, s).data[b] == p.data[b]
  {
    hide Tiled, Renumbered, MoveBlock, PutSlot, Directory, LowestBelow, BytesBelow, BlankWhenUnused, EndsUsed,
         PageState.Settled, PageState.MoveClear;
    var hole := p.Slots()[s - 1];
    var from, bytes := LowestBelow(p.Slots(), hole.offset), BytesBelow(p.Slots(), hole.offset);
    SettledBlock(p, s);
    RenumberedBytes(p, s);
    MoveKeepsBytesBelow(Renumbered(p, s), from, from + hole.length, bytes, b);
    BytesAboveSlot(Moved(p, s), s - 1, FREE_SLOT);
  }
}
