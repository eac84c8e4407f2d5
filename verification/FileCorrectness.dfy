// What allocation and deletion keep, when they keep it, and how they undo each other.
module FileCorrectness {
  import opened Types
  import opened SlottedPage
  import opened PageList
  import opened PagedFile

  // What clients see of a page: everything but its next pointer.
  function Contents(p: PageState): PageState {
    p.(nextPage := 0)
  }

  // The pages in use other than q are the same, but for next pointers.
  ghost predicate SameContents(f: FileState, g: FileState, q: PageId) {
    forall p | p in f.UsedPages() && p != q :: p in g.UsedPages() && Contents(g.pages[p]) == Contents(f.pages[p])
  }

  // The same lists: header, page numbers and next pointers. What the pages hold may differ.
  ghost predicate SameLinks(f: FileState, g: FileState) {
    && g.header == f.header && g.pages.Keys == f.pages.Keys
    && forall p | p in f.pages ::
         g.pages[p].pageNumber == f.pages[p].pageNumber && g.pages[p].nextPage == f.pages[p].nextPage
  }

  // The used list is ascending, meets every used page once and ends with 0.
  lemma UsedListInOrder(f: FileState)
    requires f.WellFormed()
    ensures Stacked(f.UsedPages(), f.header.firstUsed, f.pages, |f.UsedPages()|)
    ensures var list := f.UsedList(); forall i, j | 0 <= i < j < |list| :: list[i] < list[j]
  {
    hide Chain, Stacked, IsNext;
    AscendingWalk(f.UsedPages(), f.header.firstUsed, f.pages);
    assert f.UsedList() == Chain(f.pages, f.header.firstUsed, |f.UsedPages()|);
  }

  // ----- allocation -----

  // The page handed out is a new empty one; no other page changes for its clients.
  ghost predicate Allocated(f: FileState, a: Allocation) {
    && a.number != 0 && a.number !in f.UsedPages()
    && a.file.UsedPages() == f.UsedPages() + {a.number}
    && a.page == a.file.pages[a.number] == NewPage().(pageNumber := a.number, nextPage := a.page.nextPage)
    && SameContents(f, a.file, a.number)
    && a.file.Numbered()
  }

  lemma AllocateNewCorrect(f: FileState)
    requires f.WellFormed() && f.header.numFree == 0
    ensures var a := AllocateNew(f);
            && Allocated(f, a) && a.file.WellFormed()
            && a.number == f.header.numPages && a.file.FreeList() == []
  {
    hide LastBelow, Ascending, Stacked, Chain;
    var a, p := AllocateNew(f), f.header.numPages;
    NothingAbove(f);
    assert a.file.UsedPages() == f.UsedPages() + {p};
    assert a.file.FreePages() == f.FreePages();
    LinkIn(f.UsedPages(), f.header.firstUsed, f.pages, p, a.file.header.firstUsed, a.file.pages);
    StackedFrame(f.FreePages(), f.header.firstFree, f.pages, f.header.numFree, a.file.pages);
  }

  // The last used page is the one a new page is linked in after.
  lemma NothingAbove(f: FileState)
    requires f.WellFormed()
    ensures var last := LastBelow(f.UsedPages(), f.header.numPages);
            && (last == 0 <==> f.header.firstUsed == 0)
            && (last != 0 ==> f.pages[last].nextPage == 0)
  {
    hide LastBelow, Stacked, Chain;
  }

  // The last used page below p is 0 exactly when p goes to the head of the used list.
  lemma HeadOrAfter(f: FileState, p: PageId)
    requires f.WellFormed() && p != 0
    ensures LastBelow(f.UsedPages(), p) == 0 <==> f.header.firstUsed == 0 || f.header.firstUsed >= p
  {
    hide LastBelow, Stacked, Chain;
  }

  // The page most recently deleted is reused. When no page is in use it keeps its pointer into the free list, so that
  // the used list runs on through all free pages.
  lemma AllocateFreeCorrect(f: FileState)
    requires f.WellFormed() && f.header.numFree > 0
    ensures var a := AllocateFree(f);
            && Allocated(f, a)
            && a.number == f.header.firstFree
            && [a.number] + a.file.FreeList() == f.FreeList()
            && (a.file.WellFormed() <==> f.header.firstUsed != 0 || f.header.numFree == 1)
            && (f.header.firstUsed == 0 ==>
                  && a.file.header == f.header.(firstUsed := a.number, firstFree := a.page.nextPage,
                                                numFree := f.header.numFree - 1)
                  && Chain(a.file.pages, a.file.header.firstUsed, f.header.numFree) == f.FreeList())
  {
    hide LastBelow, Ascending, Stacked, Chain;
    var a, p := AllocateFree(f), f.header.firstFree;
    Pop(f.FreePages(), p, f.pages, f.header.numFree);
    AllocateFreePages(f);
    FreeFrame(f);
    HeadOrAfter(f, p);
    NoneUsed(f);
    ChainFrom(a.file.pages, p, f.header.numFree);
    if f.header.firstUsed != 0 || f.header.numFree == 1 {
      LinkIn(f.UsedPages(), f.header.firstUsed, f.pages, p, a.file.header.firstUsed, a.file.pages);
    } else {
      assert a.file.UsedPages() == {p};
      OnlyPage(p, a.file.pages);
    }
  }

  lemma AllocateFreePages(f: FileState)
    requires f.WellFormed() && f.header.numFree > 0
    ensures f.header.firstFree in f.FreePages()
    ensures var a := AllocateFree(f);
            && Allocated(f, a)
            && a.file.FreePages() == f.FreePages() - {a.number}
            && forall r | r in f.FreePages() && r != a.number :: a.file.pages[r] == f.pages[r]
  {
    hide LastBelow, Ascending, Stacked, Chain;
    Pop(f.FreePages(), f.header.firstFree, f.pages, f.header.numFree);
    var a := AllocateFree(f);
    assert a.file.UsedPages() == f.UsedPages() + {a.number};
    assert a.file.FreePages() == f.FreePages() - {a.number};
  }

  lemma FreeFrame(f: FileState)
    requires f.WellFormed() && f.header.numFree > 0
    ensures var g := AllocateFree(f).file;
            && Stacked(g.FreePages(), g.header.firstFree, g.pages, g.header.numFree)
            && [f.header.firstFree] + g.FreeList() == f.FreeList()
  {
    hide LastBelow, Ascending, Stacked, Chain;
    Pop(f.FreePages(), f.header.firstFree, f.pages, f.header.numFree);
    AllocateFreePages(f);
    var g := AllocateFree(f).file;
    StackedFrame(f.FreePages() - {f.header.firstFree}, g.header.firstFree, f.pages, f.header.numFree - 1, g.pages);
  }

  lemma NoneUsed(f: FileState)
    requires f.WellFormed()
    ensures f.header.firstUsed == 0 <==> f.UsedPages() == {}
  {
    hide LastBelow, Stacked, Chain;
  }

  // A used list of one page whose next pointer is not 0 is not in order.
  lemma OnlyPage(p: PageId, pages: Pages)
    requires p in pages && pages[p].nextPage != 0
    ensures !Ascending({p}, p, pages)
  {
  }

  // Allocation keeps the file well formed exactly when a page is in use or at most one is free.
  lemma AllocateWellFormedIff(f: FileState)
    requires f.WellFormed()
    ensures Allocated(f, AllocatedFile(f))
    ensures AllocatedFile(f).file.WellFormed() <==> f.header.firstUsed != 0 || f.header.numFree <= 1
  {
    if f.header.numFree > 0 {
      AllocateFreeCorrect(f);
    } else {
      AllocateNewCorrect(f);
    }
  }

  // ----- deletion -----

  lemma DeleteCorrect(f: FileState, p: PageId)
    requires f.WellFormed()
    ensures DeletedFile(f, p).None? <==> p !in f.UsedPages()
    ensures p in f.UsedPages() ==>
              var g := DeletedFile(f, p).value;
              && g.WellFormed()
              && g.UsedPages() == f.UsedPages() - {p}
              && SameContents(f, g, p)
              && g.FreeList() == [p] + f.FreeList()
              && g.header.numPages == f.header.numPages
  {
    hide FileState.UsedPages, FileState.FreePages, FileState.Numbered, LastBelow, Ascending, Stacked, Chain;
    NotUsed(f, p);
    if p in f.UsedPages() {
      DeletePages(f, p);
      var g := DeletedFile(f, p).value;
      LinkOut(f.UsedPages(), f.header.firstUsed, f.pages, p, g.header.firstUsed, g.pages);
      Push(f.FreePages(), f.header.firstFree, f.pages, f.header.numFree, p, g.pages);
    }
  }

  lemma NotUsed(f: FileState, p: PageId)
    requires f.WellFormed()
    ensures DeletedFile(f, p).None? <==> p !in f.UsedPages()
  {
  }

  lemma DeletePages(f: FileState, p: PageId)
    requires f.WellFormed() && p in f.UsedPages()
    ensures p != 0 && p !in f.FreePages()
    ensures DeletedFile(f, p).Some?
    ensures var g := DeletedFile(f, p).value;
            && g.UsedPages() == f.UsedPages() - {p}
            && g.FreePages() == f.FreePages() + {p}
            && g.Numbered() && SameContents(f, g, p)
            && g.pages.Keys == f.pages.Keys && f.FreePages() + f.UsedPages() <= f.pages.Keys
            && (forall r | r in f.FreePages() :: g.pages[r] == f.pages[r])
  {
    hide LastBelow, Ascending, Stacked, Chain;
    var g := DeletedFile(f, p).value;
    assert g.UsedPages() == f.UsedPages() - {p};
    assert g.FreePages() == f.FreePages() + {p};
  }

  // ----- deletion undone by allocation -----

  // Allocating after a deletion hands out the deleted page, emptied, and restores everything else, the
  // header included, exactly when another page is in use or no page was free.
  lemma DeleteThenAllocate(f: FileState, p: PageId)
    requires f.WellFormed() && p in f.UsedPages()
    ensures DeletedFile(f, p).Some? && DeletedFile(f, p).value.WellFormed()
    ensures var a := AllocatedFile(DeletedFile(f, p).value);
            && a.number == p
            && var emptied := NewPage().(pageNumber := p, nextPage := f.pages[p].nextPage);
               (a.file == f.(pages := f.pages[p := emptied])
                <==> f.UsedPages() != {p} || f.header.numFree == 0)
  {
    hide LastBelow, Chain, Ascending, Stacked;
    DeleteCorrect(f, p);
    var g := DeletedFile(f, p).value;
    var a := AllocatedFile(g);
    LastBelowWithout(f.UsedPages(), p);
    NoFreePages(f);
    NoneUsed(g);
    LeadsTo(f.UsedPages(), f.header.firstUsed, f.pages, p);
    assert a == AllocateFree(g);
    var emptied := NewPage().(pageNumber := p, nextPage := f.pages[p].nextPage);
    assert a.file.header == f.header;
    var last := LastBelow(f.UsedPages(), p);
    if last != 0 {
      assert a.file.pages == f.pages[p := emptied];
      assert last in f.UsedPages() && last != p;
    } else {
      assert a.file.pages == f.pages[p := a.page];
      assert f.UsedPages() == {p} <==> g.UsedPages() == {};
      assert f.pages[p := emptied][p] == emptied && f.pages[p := a.page][p] == a.page;
    }
  }

  lemma NoFreePages(f: FileState)
    requires f.WellFormed()
    ensures f.header.numFree == 0 <==> f.header.firstFree == 0
  {
    if f.header.numFree > 0 {
      Pop(f.FreePages(), f.header.firstFree, f.pages, f.header.numFree);
    }
  }

  // ----- writing back -----

  // Writing a page never changes a list, nor the header, nor another page.
  lemma WriteKeepsLists(f: FileState, p: PageId, page: PageState)
    requires f.WellFormed() && page.pageNumber == p
    ensures WriteFilePage(f, p, page).Some? <==> p in f.UsedPages()
    ensures p in f.UsedPages() ==>
              var g := WriteFilePage(f, p, page).value;
              && g.WellFormed()
              && SameLinks(f, g)
              && g.UsedPages() == f.UsedPages() && g.UsedList() == f.UsedList() && g.FreeList() == f.FreeList()
              && Contents(g.pages[p]) == Contents(page)
              && (forall r | r in f.pages && r != p :: g.pages[r] == f.pages[r])
  {
    hide Chain, Stacked, IsNext;
    if p in f.UsedPages() {
      var g := WriteFilePage(f, p, page).value;
      assert g.UsedPages() == f.UsedPages();
      assert g.FreePages() == f.FreePages();
      StackedFrame(f.FreePages(), f.header.firstFree, f.pages, f.header.numFree, g.pages);
      AscendingWalk(f.UsedPages(), f.header.firstUsed, f.pages);
      StackedFrame(f.UsedPages(), f.header.firstUsed, f.pages, |f.UsedPages()|, g.pages);
    }
  }

  // Allocation and deletion see and change nothing but the lists.
  lemma AllocatedLinks(f: FileState, g: FileState)
    requires f.WellFormed() && g.WellFormed() && SameLinks(f, g)
    ensures AllocatedFile(g).number == AllocatedFile(f).number
    ensures SameLinks(AllocatedFile(f).file, AllocatedFile(g).file)
  {
    hide FileState.Numbered, Ascending, Stacked, LastBelow;
    SamePagesUsed(f, g);
    NothingAllocatedYet(f);
    NothingAllocatedYet(g);
  }

  lemma DeletedLinks(f: FileState, g: FileState, p: PageId)
    requires f.WellFormed() && g.WellFormed() && SameLinks(f, g)
    ensures DeletedFile(f, p).Some? <==> DeletedFile(g, p).Some?
    ensures DeletedFile(f, p).Some? ==> SameLinks(DeletedFile(f, p).value, DeletedFile(g, p).value)
  {
    hide FileState.Numbered, Ascending, Stacked, LastBelow;
    SamePagesUsed(f, g);
  }

  lemma SamePagesUsed(f: FileState, g: FileState)
    requires SameLinks(f, g)
    ensures g.UsedPages() == f.UsedPages() && g.FreePages() == f.FreePages()
  {
  }

  lemma NothingAllocatedYet(f: FileState)
    requires f.WellFormed()
    ensures f.header.numPages !in f.pages
    ensures f.header.numFree > 0 ==> f.header.firstFree in f.pages
  {
    if f.header.numFree > 0 {
      Pop(f.FreePages(), f.header.firstFree, f.pages, f.header.numFree);
    }
  }

  // From a new file, allocating two pages and deleting both leads to where the next allocation breaks
  // the file.
  lemma BreakingAllocationReachable() returns (f1: FileState, f2: FileState, f3: FileState, f4: FileState)
    ensures NewFile().WellFormed() && f1 == AllocatedFile(NewFile()).file && f1.WellFormed()
    ensures f2 == AllocatedFile(f1).file && f2.WellFormed()
    ensures DeletedFile(f2, 1) == Some(f3) && f3.WellFormed()
    ensures DeletedFile(f3, 2) == Some(f4) && f4.WellFormed()
    ensures !AllocatedFile(f4).file.WellFormed() && AllocatedFile(f4).page.nextPage == 1
    ensures var f5 := AllocatedFile(f4).file;
            && f5.UsedPages() == {2} && f5.header == FileHeader(3, 2, 1, 1)
            && Chain(f5.pages, f5.header.firstUsed, 2) == [2, 1] && f5.FreeList() == [1]
  {
    hide Chain, Stacked, Ascending, AllocatedFile, DeletedFile, FileState.WellFormed;
    NewFileWellFormed();
    f1 := AllocatedFile(NewFile()).file;
    AllocatePageNew(NewFile());
    f2 := AllocatedFile(f1).file;
    AllocatePageNew(f1);
    assert f2.UsedPages() == {1, 2};
    DeleteCorrect(f2, 1);
    f3 := DeletedFile(f2, 1).value;
    DeleteCorrect(f3, 2);
    f4 := DeletedFile(f3, 2).value;
    assert f4.UsedPages() == {} && f4.FreeList() == [2, 1];
    BreaksOnto(f4);
  }

  lemma BreaksOnto(f: FileState)
    requires f.WellFormed() && f.UsedPages() == {} && f.FreeList() == [2, 1] && f.header.numPages == 3
    ensures !AllocatedFile(f).file.WellFormed() && AllocatedFile(f).page.nextPage == 1
    ensures var g := AllocatedFile(f).file;
            && g.UsedPages() == {2} && g.header == FileHeader(3, 2, 1, 1)
            && Chain(g.pages, g.header.firstUsed, 2) == [2, 1] && g.FreeList() == [1]
  {
    hide Chain, Stacked, Ascending, AllocateFree, FileState.WellFormed;
    NoneUsed(f);
    FreeListLength(f);
    AllocateFreeCorrect(f);
    var a := AllocateFree(f);
    assert a.file.FreeList() == f.FreeList()[1..];
    ListHead(a.file.pages, a.file.header.firstFree, 1);
  }

  lemma ListHead(pages: Pages, start: PageId, n: nat)
    ensures Chain(pages, start, n) != [] ==> Chain(pages, start, n)[0] == start
  {
  }

  lemma NewFileWellFormed()
    ensures NewFile().WellFormed() && NewFile().UsedPages() == {}
  {
  }

  lemma AllocatePageNew(f: FileState)
    requires f.WellFormed() && f.header.numFree == 0
    ensures var a := AllocatedFile(f);
            && a.file.WellFormed() && a.file.header.numPages == f.header.numPages + 1
            && a.file.UsedPages() == f.UsedPages() + {f.header.numPages}
            && a.file.header.numFree == 0 && a.file.FreeList() == []
  {
    AllocateNewCorrect(f);
  }

  lemma FreeListLength(f: FileState)
    requires f.WellFormed()
    ensures |f.FreeList()| == f.header.numFree
  {
  }
}
