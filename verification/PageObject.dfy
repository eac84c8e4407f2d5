// The Page class: header fields and a byte array, changed in place (page.cpp, page.h).
module PageObject {
  import opened Types
  import opened SlotBytes
  import opened SlotLayout
  import opened SlottedPage
  import opened PageCorrectness
  import opened PageRuns

  class Page {
    var lower: uint16
    var upper: uint16
    var numSlots: uint16
    var numFree: uint16
    var pageNumber: PageId
    var nextPage: PageId
    const data: array<byte>

    ghost function View(): PageState
      reads this, data
    {
      PageState(lower, upper, numSlots, numFree, pageNumber, nextPage, data[..])
    }

    ghost predicate Valid()
      reads this, data
    {
      View().WellFormed()
    }

    constructor ()
      ensures Valid() && View() == NewPage() && fresh(data)
    {
      data := new byte[DATA_SIZE];
      new;
      Initialize();
    }

    method Initialize()
      requires data.Length == DATA_SIZE
      modifies this, data
      ensures Valid() && View() == NewPage()
    {
      lower, upper, numSlots, numFree := 0, DATA_SIZE, 0, 0;
      pageNumber, nextPage := INVALID_NUMBER, INVALID_NUMBER;
      for i := 0 to DATA_SIZE
        modifies data
        invariant forall j | 0 <= j < i :: data[j] == 0
      {
        data[i] := 0;
      }
      assert data[..] == Zeros(DATA_SIZE);
    }

    function GetSlot(k: nat): (slot: PageSlot)
      requires SLOT_SIZE * (k + 1) <= data.Length
      reads data
      ensures slot == SlotAt(data[..], k)
    {
      var i := SLOT_SIZE * k;
      PageSlot(data[i], Word(data[i + 2], data[i + 3]), Word(data[i + 4], data[i + 5]))
    }

    method SetSlot(k: nat, slot: PageSlot)
      requires SLOT_SIZE * (k + 1) <= data.Length
      modifies data
      ensures data[..] == PutSlot(old(data[..]), k, slot)
    {
      var i := SLOT_SIZE * k;
      data[i] := slot.flag;
      data[i + 2], data[i + 3] := slot.offset % 256, slot.offset / 256;
      data[i + 4], data[i + 5] := slot.length % 256, slot.length / 256;
    }

    method HasSpaceForRecord(record: seq<byte>) returns (fits: bool)
      requires Valid()
      ensures fits == View().HasSpaceFor(|record|)
      ensures fits <==> MapStep(View().Records(), InsertOp(record)).1 != Rejected(InsufficientSpace)
    {
      var size := |record|;
      if numFree == 0 {
        size := size + SLOT_SIZE;
      }
      fits := size <= upper - lower;
      SpaceIsRoom(View(), record);
    }

    static lemma RecordNamed(p: PageState, id: RecordId)
      requires p.WellFormed() && 1 <= id.slotNumber <= p.numSlots
      ensures InPage(p.Slots()) && p.Slots()[id.slotNumber - 1] == SlotAt(p.data, id.slotNumber - 1)
      ensures SlottedPage.Valid(p, id) <==> id.pageNumber == p.pageNumber && id.slotNumber in p.Records()
      ensures SlottedPage.Valid(p, id) ==> p.Records()[id.slotNumber] == p.Record(id.slotNumber)
    {
      RecordsInPage(p);
    }

    // There is no check that the directory has the slot; beyond its end whatever bytes are there decide.
    method ValidateRecordId(id: RecordId) returns (valid: bool)
      requires Valid() && 1 <= id.slotNumber && SLOT_SIZE * id.slotNumber <= DATA_SIZE
      ensures id.slotNumber <= numSlots ==>
                (valid <==> id.pageNumber == pageNumber && id.slotNumber in View().Records())
      ensures id.slotNumber > numSlots ==>
                (valid <==> id.pageNumber == pageNumber && SlotAt(data[..], id.slotNumber - 1).Used())
    {
      hide Tiled, SlotAt, Directory, CountUnused, BlankWhenUnused, EndsUsed;
      if id.slotNumber <= numSlots {
        RecordNamed(View(), id);
      }
      valid := id.pageNumber == pageNumber && GetSlot(id.slotNumber - 1).Used();
    }

    method GetRecord(id: RecordId) returns (status: Status, record: seq<byte>)
      requires Valid() && 1 <= id.slotNumber && SLOT_SIZE * id.slotNumber <= DATA_SIZE
      ensures (status, record) == Fetch(View(), id)
      ensures id.slotNumber <= numSlots ==>
                && (status == if id.pageNumber == pageNumber && id.slotNumber in View().Records() then Ok
                              else InvalidRecord)
                && (status == Ok ==> record == View().Records()[id.slotNumber])
    {
      hide Tiled, SlotAt, Directory, CountUnused, BlankWhenUnused, EndsUsed, PageState.Records;
      if id.slotNumber <= numSlots {
        RecordNamed(View(), id);
        FetchCorrect(View(), id);
      }
      var valid := ValidateRecordId(id);
      if !valid {
        return InvalidRecord, [];
      }
      var slot := GetSlot(id.slotNumber - 1);
      if slot.offset > DATA_SIZE {
        return OutOfRange, [];
      }
      return Ok, data[slot.offset..if slot.End() <= DATA_SIZE then slot.End() else DATA_SIZE];
    }

    // The search of getAvailableSlot for an allocated but unused slot.
    method FindUnusedSlot() returns (slot: SlotId)
      requires Valid() && numFree > 0
      ensures slot == FirstUnused(View().Slots()) + 1 <= numSlots
    {
      hide Tiled, BlankWhenUnused, EndsUsed;
      ghost var slots := View().Slots();
      CountIsZeroIffAllUsed(slots);
      slot := INVALID_SLOT;
      var i := 1;
      while i <= numSlots
        invariant 1 <= i <= FirstUnused(slots) + 1 && slot == INVALID_SLOT
      {
        assert GetSlot(i - 1) == slots[i - 1];
        if !GetSlot(i - 1).Used() {
          slot := i;
          break;
        }
        i := i + 1;
      }
    }

    method GetAvailableSlot() returns (slot: SlotId)
      requires Valid() && (numFree == 0 ==> SLOT_SIZE * (numSlots + 1) <= DATA_SIZE)
      modifies this
      ensures (View(), slot) == AvailableSlot(old(View()))
    {
      if numFree > 0 {
        slot := FindUnusedSlot();
      } else {
        slot := numSlots + 1;
        numSlots := numSlots + 1;
        numFree := numFree + 1;
        lower := SLOT_SIZE * numSlots;
      }
    }

    method InsertRecordInSlot(slot: SlotId, record: seq<byte>) returns (status: Status)
      requires data.Length == DATA_SIZE && SLOT_SIZE * numSlots <= upper - |record| && upper <= DATA_SIZE && numFree > 0
      modifies this, data
      ensures status == if slot > old(numSlots) || slot == INVALID_SLOT then InvalidSlot
                        else if old(View()).Slots()[slot - 1].Used() then SlotInUse
                        else Ok
      ensures View() == if status == Ok then PlaceRecord(old(View()), slot, record) else old(View())
    {
      hide PutSlot, Splice, SlotAt;
      if slot > numSlots || slot == INVALID_SLOT {
        return InvalidSlot;
      }
      if GetSlot(slot - 1).Used() {
        return SlotInUse;
      }
      var offset := upper - |record|;
      SetSlot(slot - 1, PageSlot(1, offset, |record|));
      upper := offset;
      numFree := numFree - 1;
      CopyBytes(offset, record);
      return Ok;
    }

    // The copying loop of insertRecordInSlot and of deleteRecord.
    method CopyBytes(at: nat, bytes: seq<byte>)
      requires at + |bytes| <= data.Length
      modifies data
      ensures data[..] == Splice(old(data[..]), at, bytes)
    {
      hide Splice;
      SpliceNone(data[..], at, bytes);
      for i := 0 to |bytes|
        invariant data[..] == Splice(old(data[..]), at, bytes[..i])
      {
        SpliceOneMore(old(data[..]), at, bytes, i);
        data[i + at] := bytes[i];
      }
      assert bytes[..|bytes|] == bytes;
    }

    static lemma SpliceNone(data: seq<byte>, at: nat, bytes: seq<byte>)
      requires at + |bytes| <= |data|
      ensures Splice(data, at, bytes[..0]) == data
    {
    }

    static lemma SpliceOneMore(data: seq<byte>, at: nat, bytes: seq<byte>, i: nat)
      requires at + |bytes| <= |data| && i < |bytes|
      ensures Splice(data, at, bytes[..i])[i + at := bytes[i]] == Splice(data, at, bytes[..i + 1])
    {
      assert bytes[..i + 1] == bytes[..i] + [bytes[i]];
    }

    static lemma AvailableFits(p: PageState, record: seq<byte>)
      requires p.WellFormed() && p.HasSpaceFor(|record|)
      ensures p.numFree == 0 ==> SLOT_SIZE * (p.numSlots + 1) <= DATA_SIZE
      ensures var q := AvailableSlot(p).0;
              && q.numFree > 0 && q.pageNumber == p.pageNumber
              && SLOT_SIZE * q.numSlots <= q.upper - |record| && q.upper <= DATA_SIZE
    {
    }

    method InsertRecord(record: seq<byte>) returns (status: Status, id: RecordId)
      requires Valid()
      modifies this, data
      ensures var r := Insert(old(View()), record);
              && View() == r.page
              && status == r.status
              && (status == Ok ==> id == RecordId(pageNumber, r.slot))
      ensures Valid() <==> status != SlotInUse
    {
      hide Tiled, SlotAt, Directory, BlankWhenUnused, EndsUsed, PlaceRecord, PageState.Records, MapStep;
      id := RecordId(INVALID_NUMBER, INVALID_SLOT);
      ghost var before := View();
      InsertCorrect(before, record);
      var fits := HasSpaceForRecord(record);
      if !fits {
        return InsufficientSpace, id;
      }
      AvailableFits(before, record);
      var slot := GetAvailableSlot();
      status := InsertRecordInSlot(slot, record);
      if status == Ok {
        id := RecordId(pageNumber, slot);
      }
    }

    // The loop of deleteRecord that overwrites the record with zeros.
    method EraseRecord(offset: nat, length: nat)
      requires data.Length == DATA_SIZE && offset + length <= DATA_SIZE
      modifies data
      ensures data[..] == Splice(old(data[..]), offset, Zeros(length))
    {
      for i := 0 to length
        invariant data[..] == Splice(old(data[..]), offset, Zeros(i))
      {
        data[i + offset] := 0;
      }
    }

    // One entry of the directory is rewritten while the earlier ones are already renumbered.
    static lemma RenumberStep(before: seq<byte>, current: seq<PageSlot>, i: nat, slot: PageSlot)
      requires SLOT_SIZE * |current| <= |before| && i < |current|
      ensures SlotAt(WriteDirectory(before, current), i) == current[i]
      ensures PutSlot(WriteDirectory(before, current), i, slot) == WriteDirectory(before, current[i := slot])
    {
      hide WriteDirectory, PutSlot;
      ReadBackDirectory(before, current);
      assert Directory(WriteDirectory(before, current), |current|)[i] == current[i];
      PutIntoDirectory(before, current, i, slot);
    }

    static lemma ScanStep(slots: seq<PageSlot>, i: nat, b: nat)
      requires i < |slots|
      ensures BytesBelow(slots[..i + 1], b) == BytesBelow(slots[..i], b) + Weight(slots[i], b)
      ensures var lowest := LowestBelow(slots[..i], b);
              LowestBelow(slots[..i + 1], b) ==
              if Below(slots[i], b) && slots[i].offset < lowest then slots[i].offset else lowest
    {
      assert slots[..i + 1][..i] == slots[..i];
    }

    // The loop of deleteRecord that finds the block to move and renumbers the records in it.
    method RenumberRecords(hole: PageSlot, k: nat, ghost slots: seq<PageSlot>) returns (moveOffset: nat, moveBytes: nat)
      requires data.Length == DATA_SIZE && SLOT_SIZE * numSlots <= DATA_SIZE
      requires Directory(data[..], numSlots) == slots
      requires InPage(slots) && k < numSlots && slots[k] == hole && hole.Used()
      modifies data
      ensures data[..] == WriteDirectory(old(data[..]), Shifted(slots, k))
      ensures moveOffset == LowestBelow(slots, hole.offset)
      ensures moveBytes == BytesBelow(slots, hole.offset)
    {
      hide WriteDirectory, PutSlot, Directory, LowestBelow, BytesBelow;
      ghost var before := data[..];
      ghost var shifted := Shifted(slots, k);
      ghost var current := slots;
      RewriteDirectory(before, numSlots);
      moveOffset, moveBytes := hole.offset, 0;
      assert slots[..0] == [];
      NothingScanned(hole.offset);
      for i := 0 to numSlots
        modifies data
        invariant |current| == numSlots
        invariant forall j | 0 <= j < numSlots :: current[j] == if j < i then shifted[j] else slots[j]
        invariant data[..] == WriteDirectory(before, current)
        invariant moveOffset == LowestBelow(slots[..i], hole.offset)
        invariant moveBytes == BytesBelow(slots[..i], hole.offset)
      {
        RenumberStep(before, current, i, shifted[i]);
        ScanStep(slots, i, hole.offset);
        var other := GetSlot(i);
        if other.Used() && other.offset < hole.offset {
          if other.offset < moveOffset {
            moveOffset := other.offset;
          }
          moveBytes := moveBytes + other.length;
          SetSlot(i, other.(offset := other.offset + hole.length));
          current := current[i := shifted[i]];
        }
      }
      assert slots[..numSlots] == slots && current == shifted;
    }

    static lemma NothingScanned(b: nat)
      ensures LowestBelow([], b) == b && BytesBelow([], b) == 0
    {
    }

    // The copy of deleteRecord, through a temporary string.
    method MoveRecords(from: nat, to: nat, n: nat)
      requires data.Length == DATA_SIZE && from + n <= DATA_SIZE && to + n <= DATA_SIZE
      modifies data
      ensures data[..] == MoveBlock(old(data[..]), from, to, n)
    {
      if n > 0 {
        CopyBytes(to, data[from..from + n]);
      }
    }

    // The loop of deleteRecord that drops the unused slots at the end of the directory.
    method CompactSlots()
      requires data.Length == DATA_SIZE && SLOT_SIZE * numSlots <= DATA_SIZE && lower == SLOT_SIZE * numSlots
      requires numSlots > 0 && !View().Slots()[numSlots - 1].Used() && numFree == CountUnused(View().Slots())
      modifies this
      ensures View() == Compacted(old(View()))
    {
      hide SlotAt;
      ghost var slots := View().Slots();
      var toDelete := 1;
      var i := 1;
      while i < numSlots
        invariant 1 <= i == toDelete <= numSlots
        invariant TrimTail(slots) == TrimTail(slots[..numSlots - toDelete])
      {
        var other := GetSlot(numSlots - i - 1);
        assert other == slots[..numSlots - i][numSlots - i - 1];
        assert slots[..numSlots - i][..numSlots - i - 1] == slots[..numSlots - i - 1];
        if !other.Used() {
          toDelete := toDelete + 1;
        } else {
          break;
        }
        i := i + 1;
      }
      CountTrimmed(slots);
      numSlots := numSlots - toDelete;
      numFree := numFree - toDelete;
      lower := lower - SLOT_SIZE * toDelete;
    }

    method DeleteRecordKeeping(id: RecordId, allowSlotCompaction: bool) returns (status: Status)
      requires Valid() && 1 <= id.slotNumber <= numSlots
      requires SlottedPage.Valid(View(), id) ==> View().EntryClear(id.slotNumber)
      modifies this, data
      ensures status == if SlottedPage.Valid(old(View()), id) then Ok else InvalidRecord
      ensures View() == if status != Ok then old(View())
                        else if allowSlotCompaction then Deleted(old(View()), id.slotNumber)
                        else Vacated(old(View()), id.slotNumber)
    {
      hide Tiled, SlotAt, Directory, BlankWhenUnused, EndsUsed, PageState.EntryClear, Vacated, PageState.Records;
      ghost var before := View();
      RecordNamed(before, id);
      var valid := ValidateRecordId(id);
      if !valid {
        return InvalidRecord;
      }
      var k := id.slotNumber - 1;
      var hole := GetSlot(k);
      VacateSlot(k, hole);
      VacatedHeader(before, id.slotNumber);
      if allowSlotCompaction && id.slotNumber == numSlots {
        ClearEntry(before, id.slotNumber);
        VacatedShape(before, id.slotNumber);
        CompactSlots();
      }
      return Ok;
    }

    // deleteRecord up to the point where the slot is marked unused.
    method VacateSlot(k: nat, hole: PageSlot)
      requires Valid() && k < numSlots && View().Slots()[k] == hole && hole.Used() && View().EntryClear(k + 1)
      modifies this, data
      ensures View() == Vacated(old(View()), k + 1)
    {
      hide Tiled, InPage, BlankWhenUnused, EndsUsed, Directory, PutSlot, WriteDirectory, Splice, MoveBlock,
           LowestBelow, BytesBelow;
      ghost var before := View();
      VacatingFacts(before, k + 1);
      EraseRecord(hole.offset, hole.length);
      var moveOffset, moveBytes := RenumberRecords(hole, k, before.Slots());
      assert data[..] == Renumbered(before, k + 1);
      MoveRecords(moveOffset, moveOffset + hole.length, moveBytes);
      assert data[..] == Moved(before, k + 1);
      upper := upper + hole.length;
      SetSlot(k, FREE_SLOT);
      numFree := numFree + 1;
    }

    static lemma VacatingFacts(p: PageState, s: SlotId)
      requires p.WellFormed() && p.Live(s)
      ensures var hole := p.Slots()[s - 1];
              && InPage(p.Slots())
              && hole.End() <= DATA_SIZE && p.upper + hole.length <= DATA_SIZE && p.numFree < p.numSlots
              && LowestBelow(p.Slots(), hole.offset) + hole.length + BytesBelow(p.Slots(), hole.offset) <= DATA_SIZE
              && Directory(Splice(p.data, hole.offset, Zeros(hole.length)), p.numSlots) == p.Slots()
    {
      hide Directory, BlankWhenUnused, EndsUsed;
      var hole := p.Slots()[s - 1];
      BlockFits(p.Slots(), p.upper, s - 1);
      CountBelowAll(p.Slots(), s - 1);
      SameBytesSameDirectory(p.data, Splice(p.data, hole.offset, Zeros(hole.length)), p.numSlots);
    }

    static lemma {:induction false} CountBelowAll(slots: seq<PageSlot>, k: nat)
      requires k < |slots| && slots[k].Used()
      ensures CountUnused(slots) < |slots|
    {
      CountIsZeroIffAllUsed(slots[..|slots| - 1]);
      if k < |slots| - 1 {
        CountBelowAll(slots[..|slots| - 1], k);
      }
    }

    method DeleteRecord(id: RecordId) returns (status: Status)
      requires Valid() && 1 <= id.slotNumber <= numSlots
      requires SlottedPage.Valid(View(), id) ==> View().EntryClear(id.slotNumber)
      modifies this, data
      ensures UpdateResult(View(), status) == Delete(old(View()), id)
      ensures old(SlottedPage.Valid(View(), id) ==> View().MoveClear(id.slotNumber)) ==> Valid()
    {
      ghost var before := View();
      if SlottedPage.Valid(before, id) && before.MoveClear(id.slotNumber) {
        DeletedWellFormed(before, id.slotNumber);
      }
      status := DeleteRecordKeeping(id, true);
    }

    method UpdateRecord(id: RecordId, record: seq<byte>) returns (status: Status)
      requires Valid() && 1 <= id.slotNumber <= numSlots
      requires SlottedPage.Valid(View(), id) && FitsInstead(View(), id.slotNumber, |record|) ==>
                View().EntryClear(id.slotNumber)
      modifies this, data
      ensures UpdateResult(View(), status) == Update(old(View()), id, record)
      ensures old(SlottedPage.Valid(View(), id) ==> View().MoveClear(id.slotNumber)) ==> Valid()
    {
      hide Tiled, SlotAt, Directory, BlankWhenUnused, EndsUsed, PageState.EntryClear, Vacated, PlaceRecord,
           PageState.Records;
      ghost var before := View();
      RecordNamed(before, id);
      UpdateCorrect(before, id, record);
      var valid := ValidateRecordId(id);
      if !valid {
        return InvalidRecord;
      }
      var slot := GetSlot(id.slotNumber - 1);
      if |record| > upper - lower + slot.length {
        return InsufficientSpace;
      }
      VacatedHeader(before, id.slotNumber);
      VacatedUnused(before, id.slotNumber);
      var _ := DeleteRecordKeeping(id, false);
      status := InsertRecordInSlot(id.slotNumber, record);
    }
  }
}
