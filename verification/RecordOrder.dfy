// The records of a file in the order of a scan: by page, then by slot, as clients see the pages.
module RecordOrder {
  import opened Types
  import opened SlottedPage
  import opened PageList
  import opened Files
  import opened HashTable
  import opened BufferPool
  import opened BufferConsistency

  ghost predicate InOrder(s: Pool, f: FileId) {
    forall p: PageId, page: PageState | s.View(Key(f, p)) == Some(page) :: page.WellFormed()
  }

  ghost predicate IsRecord(s: Pool, f: FileId, rid: RecordId)
    requires InOrder(s, f)
  {
    var view := s.View(Key(f, rid.pageNumber));
    view.Some? && view.value.Live(rid.slotNumber)
  }

  // The bytes of a record as clients see them.
  ghost function RecordAt(s: Pool, f: FileId, rid: RecordId): seq<byte>
    requires InOrder(s, f) && IsRecord(s, f, rid)
  {
    s.View(Key(f, rid.pageNumber)).value.Record(rid.slotNumber)
  }

  // The records of a page, of which there are none if there is no page.
  ghost function PageMap(view: Option<PageState>): (m: map<SlotId, seq<byte>>)
    requires view.Some? ==> view.value.WellFormed()
  {
    if view.None? then map[] else view.value.Records()
  }

  // The live slots of a page from slot i on.
  ghost function PageRecords(view: Option<PageState>, p: PageId, i: SlotId): seq<RecordId>
    requires view.Some? ==> view.value.WellFormed()
    decreases if view.Some? then view.value.numSlots + 1 - i else 0
  {
    if view.None? || i > view.value.numSlots then []
    else if view.value.Live(i) then [RecordId(p, i)] + PageRecords(view, p, i + 1)
    else PageRecords(view, p, i + 1)
  }

  // The records of all pages from page p on.
  ghost function RecordsFrom(s: Pool, f: FileId, p: PageId): seq<RecordId>
    requires s.Known(f) && InOrder(s, f)
    decreases s.disk[s.Home(f)].Header().numPages - p
  {
    if p >= s.disk[s.Home(f)].Header().numPages then []
    else PageRecords(s.View(Key(f, p)), p, 1) + RecordsFrom(s, f, p + 1)
  }

  ghost function AllRecords(s: Pool, f: FileId): seq<RecordId>
    requires s.Known(f) && InOrder(s, f)
  {
    RecordsFrom(s, f, 1)
  }

  // What is left for a scan that stands on the given slot of page p, or is to start over, or has ended.
  ghost function Rest(s: Pool, f: FileId, p: PageId, at: Option<SlotId>): seq<RecordId>
    requires s.Known(f) && InOrder(s, f)
  {
    if p == INVALID_NUMBER then []
    else match at
      case None => AllRecords(s, f)
      case Some(i) => PageRecords(s.View(Key(f, p)), p, i + 1) + RecordsFrom(s, f, p + 1)
  }

  predicate Before(a: RecordId, b: RecordId) {
    a.pageNumber < b.pageNumber || (a.pageNumber == b.pageNumber && a.slotNumber < b.slotNumber)
  }

  ghost predicate Sorted(rids: seq<RecordId>) {
    forall i, j | 0 <= i < j < |rids| :: Before(rids[i], rids[j])
  }

  // ----- the list has every record once, in order -----

  lemma {:induction false} PageRecordsExact(view: Option<PageState>, p: PageId, i: SlotId)
    requires view.Some? ==> view.value.WellFormed()
    ensures Sorted(PageRecords(view, p, i))
    ensures forall rid :: rid in PageRecords(view, p, i) <==>
      view.Some? && rid.pageNumber == p && i <= rid.slotNumber && view.value.Live(rid.slotNumber)
    decreases if view.Some? then view.value.numSlots + 1 - i else 0
  {
    hide PageState.WellFormed, PageState.Slots;
    if view.Some? && i <= view.value.numSlots {
      PageRecordsExact(view, p, i + 1);
    }
  }

  lemma {:induction false} RecordsFromExact(s: Pool, f: FileId, p: PageId)
    requires s.Consistent() && s.Known(f) && InOrder(s, f)
    ensures Sorted(RecordsFrom(s, f, p))
    ensures forall rid :: rid in RecordsFrom(s, f, p) <==> p <= rid.pageNumber && IsRecord(s, f, rid)
    decreases s.disk[s.Home(f)].Header().numPages - p
  {
    hide PageState.WellFormed, PageState.Slots, PageState.Live, Pool.Consistent, Pool.View, PageRecords;
    PagesInRange(s, f);
    if p < s.disk[s.Home(f)].Header().numPages {
      PageRecordsExact(s.View(Key(f, p)), p, 1);
      RecordsFromExact(s, f, p + 1);
      SlotsStartAtOne(s, f, p);
    }
  }

  lemma SlotsStartAtOne(s: Pool, f: FileId, p: PageId)
    requires InOrder(s, f)
    ensures s.View(Key(f, p)).Some? ==> forall i: SlotId | s.View(Key(f, p)).value.Live(i) :: i >= 1
  {
  }

  lemma PagesInRange(s: Pool, f: FileId)
    requires s.Consistent() && s.Known(f)
    ensures forall p: PageId | s.View(Key(f, p)).Some? :: 1 <= p < s.disk[s.Home(f)].Header().numPages
  {
    UsedPagesExist(s.disk[s.Home(f)]);
  }

  // The scan order lists exactly the records of the file, each once, by page and then by slot.
  lemma AllRecordsExact(s: Pool, f: FileId)
    requires s.Consistent() && s.Known(f) && InOrder(s, f)
    ensures Sorted(AllRecords(s, f))
    ensures forall rid :: rid in AllRecords(s, f) <==> IsRecord(s, f, rid)
    ensures forall i, j | 0 <= i < j < |AllRecords(s, f)| :: AllRecords(s, f)[i] != AllRecords(s, f)[j]
  {
    RecordsFromExact(s, f, 1);
    PagesInRange(s, f);
  }

  // ----- walking along it -----

  // Slot n is the first live one after slot i; 0 if there is none.
  ghost predicate IsNextSlot(p: PageState, i: SlotId, n: SlotId)
    requires p.Readable()
  {
    if n == INVALID_SLOT then forall j: SlotId | p.Live(j) :: j <= i
    else i < n && p.Live(n) && forall j | i < j < n :: !p.Live(j)
  }

  lemma {:induction false} NextSlotIsNext(view: Option<PageState>, p: PageId, i: SlotId, n: SlotId, k: SlotId)
    requires view.Some? && view.value.WellFormed() && IsNextSlot(view.value, i, n)
    requires i < k && (n == 0 || k <= n)
    ensures PageRecords(view, p, k) == if n == 0 then [] else [RecordId(p, n)] + PageRecords(view, p, n + 1)
    decreases view.value.numSlots + 1 - k
  {
    hide PageState.WellFormed, PageState.Slots;
    if k <= view.value.numSlots && k != n {
      NextSlotIsNext(view, p, i, n, k + 1);
    }
  }

  // Page n is the next one in use after page p; 0 if there is none.
  lemma {:induction false} NextPageIsNext(s: Pool, f: FileId, p: PageId, n: PageId, k: PageId)
    requires s.Consistent() && s.Known(f) && InOrder(s, f)
    requires IsNext(s.disk[s.Home(f)].UsedPages(), p, n) && p < k && (n == 0 || k <= n)
    ensures RecordsFrom(s, f, k) == if n == 0 then [] else RecordsFrom(s, f, n)
    decreases s.disk[s.Home(f)].Header().numPages - k
  {
    hide PageState.WellFormed, File.WellFormed, File.UsedPages, PageState.Slots;
    if k < s.disk[s.Home(f)].Header().numPages && k != n {
      NextPageIsNext(s, f, p, n, k + 1);
    }
    if k == n {
      PagesInRange(s, f);
    }
  }

  // Clients of object f see the same pages, in a file of the same size with the same lists.
  ghost predicate SameFile(s: Pool, r: Pool, f: FileId) {
    && r.aliases == s.aliases && s.Known(f) && SameLists(s.disk, r.disk, s.Home(f))
    && forall p :: r.View(Key(f, p)) == s.View(Key(f, p))
  }

  // Reading the list of records depends on what clients see only.
  lemma {:induction false} SameRecords(s: Pool, r: Pool, f: FileId, p: PageId)
    requires InOrder(s, f) && SameFile(s, r, f)
    ensures InOrder(r, f) && RecordsFrom(r, f, p) == RecordsFrom(s, f, p)
    decreases s.disk[s.Home(f)].Header().numPages - p
  {
    hide PageState.WellFormed, PageRecords, Pool.View;
    if p < s.disk[s.Home(f)].Header().numPages {
      SameRecords(s, r, f, p + 1);
    }
  }

  lemma SameRest(s: Pool, r: Pool, f: FileId, p: PageId, at: Option<SlotId>)
    requires InOrder(s, f) && SameFile(s, r, f)
    ensures InOrder(r, f) && Rest(r, f, p, at) == Rest(s, f, p, at)
  {
    hide PageState.WellFormed, PageRecords, Pool.View, RecordsFrom;
    SameRecords(s, r, f, 1);
    SameRecords(s, r, f, p + 1);
  }
}
