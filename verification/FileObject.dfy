// The PageFile class: a header and pages on disk, changed by walks over the used list (file.cpp).
module FileObject {
  import opened Types
  import opened SlottedPage
  import opened PageList
  import opened PagedFile
  import opened FileCorrectness

  lemma FirstFree(f: FileState)
    requires f.WellFormed()
    ensures f.header.numFree > 0 ==> f.header.firstFree in f.FreePages() && f.header.firstFree != 0
    ensures f.header.numFree > 0 ==> HeadPosition(f, f.header.firstFree)
    ensures HeadPosition(f, f.header.numPages)
    ensures f.header.firstUsed == 0 || f.header.firstUsed in f.UsedPages()
  {
    if f.header.numFree > 0 {
      Pop(f.FreePages(), f.header.firstFree, f.pages, f.header.numFree);
      HeadOrAfter(f, f.header.firstFree);
    }
    HeadOrAfter(f, f.header.numPages);
    NothingAbove(f);
  }

  // Page p goes to the head of the used list exactly when there is no used page below it.
  ghost predicate HeadPosition(f: FileState, p: PageId) {
    LastBelow(f.UsedPages(), p) == 0 <==> f.header.firstUsed == 0 || f.header.firstUsed >= p
  }

  class PageFile {
    // The file on disk: its header, and its pages by number.
    var header: FileHeader
    var pages: map<PageId, PageState>

    ghost function View(): FileState
      reads this
    {
      FileState(header, pages)
    }

    constructor ()
      ensures View() == NewFile()
    {
      header := FileHeader(1, INVALID_NUMBER, 0, INVALID_NUMBER);
      pages := map[];
    }

    method ReadPage(p: PageId) returns (page: Option<PageState>)
      requires View().Numbered()
      ensures page == ReadFilePage(View(), p)
    {
      if p >= header.numPages || p == 0 {
        return None;
      }
      if pages[p].pageNumber == INVALID_NUMBER {
        return None;
      }
      return Some(pages[p]);
    }

    // The private writePage: header and data as given.
    method WriteRaw(p: PageId, page: PageState)
      modifies this
      ensures pages == old(pages)[p := page] && header == old(header)
    {
      pages := pages[p := page];
    }

    // The public writePage does no bounds checking: the page must exist in the file.
    method WritePage(p: PageId, page: PageState) returns (status: FileStatus)
      requires p in pages
      modifies this
      ensures var r := WriteFilePage(old(View()), p, page);
              && status == (if r.Some? then FileOk else InvalidPage)
              && View() == if r.Some? then r.value else old(View())
    {
      var onDisk := pages[p];
      if onDisk.pageNumber == INVALID_NUMBER {
        return InvalidPage;
      }
      WriteRaw(p, page.(nextPage := onDisk.nextPage));
      return FileOk;
    }

    // The walk of allocatePage that finds where page p goes; the page before it and the pointer it holds.
    method FindPlace(p: PageId) returns (existing: PageState, next: PageId)
      requires View().WellFormed() && 0 < header.firstUsed < p && p !in View().UsedPages()
      ensures var last := LastBelow(View().UsedPages(), p);
              last != 0 && existing == pages[last] && next == pages[last].nextPage
    {
      hide Stacked, Chain, LastBelow;
      ghost var used := View().UsedPages();
      ghost var last := LastBelow(used, p);
      existing, next := NewPage(), INVALID_NUMBER;
      var iter := header.firstUsed;
      while iter != INVALID_NUMBER
        invariant iter in used && iter <= last
        decreases p - iter
      {
        var page := ReadPage(iter);
        next := page.value.nextPage;
        assert IsNext(used, iter, next);
        if next > p || next == INVALID_NUMBER {
          existing := page.value;
          break;
        }
        iter := next;
      }
    }

    // The walk of allocatePage that finds the last page of the used list.
    method FindTail() returns (existing: PageState)
      requires View().WellFormed() && header.firstUsed != 0
      ensures var last := LastBelow(View().UsedPages(), header.numPages);
              last != 0 && existing == pages[last]
    {
      hide Stacked, Chain, LastBelow;
      ghost var used := View().UsedPages();
      ghost var last := LastBelow(used, header.numPages);
      existing := NewPage();
      var iter := header.firstUsed;
      while iter != INVALID_NUMBER
        invariant iter in used && iter <= last
        decreases header.numPages - iter
      {
        var page := ReadPage(iter);
        assert IsNext(used, iter, page.value.nextPage);
        if page.value.nextPage == INVALID_NUMBER {
          existing := page.value;
          break;
        }
        iter := page.value.nextPage;
      }
    }

    // The walk of deletePage that finds the page whose pointer leads to page p.
    method FindPrevious(p: PageId) returns (previous: PageState)
      requires View().WellFormed() && p in View().UsedPages() && p != header.firstUsed
      ensures var last := LastBelow(View().UsedPages(), p);
              last != 0 && previous == pages[last]
    {
      hide Stacked, Chain, LastBelow;
      ghost var used := View().UsedPages();
      ghost var last := LastBelow(used, p);
      LeadsTo(used, header.firstUsed, pages, p);
      previous := NewPage();
      var iter := header.firstUsed;
      while iter != INVALID_NUMBER
        invariant iter in used && iter <= last
        decreases p - iter
      {
        var page := ReadPage(iter);
        previous := page.value;
        if previous.nextPage == p {
          break;
        }
        assert IsNext(used, iter, previous.nextPage);
        iter := previous.nextPage;
      }
    }

    method AllocatePage() returns (p: PageId, newPage: PageState)
      requires View().WellFormed()
      modifies this
      ensures Allocation(View(), p, newPage) == AllocatedFile(old(View()))
    {
      hide Stacked, Chain, LastBelow, Ascending;
      ghost var f := View();
      FirstFree(f);
      var h := header;
      var existing := NewPage();
      if h.numFree > 0 {
        p := h.firstFree;
        newPage := pages[p].(pageNumber := p);
        h := h.(firstFree := newPage.nextPage, numFree := h.numFree - 1);
        if h.firstUsed == INVALID_NUMBER || h.firstUsed > p {
          if h.firstUsed > p {
            newPage := newPage.(nextPage := h.firstUsed);
          }
          h := h.(firstUsed := p);
        } else {
          var next;
          existing, next := FindPlace(p);
          existing := existing.(nextPage := p);
          newPage := newPage.(nextPage := next);
        }
      } else {
        p := h.numPages;
        newPage := NewPage().(pageNumber := p);
        if h.firstUsed == INVALID_NUMBER {
          h := h.(firstUsed := p);
        } else {
          existing := FindTail();
          existing := existing.(nextPage := p);
        }
        h := h.(numPages := h.numPages + 1);
      }
      WriteRaw(p, newPage);
      if existing.pageNumber != INVALID_NUMBER {
        WriteRaw(existing.pageNumber, existing);
      }
      header := h;
    }

    method DeletePage(p: PageId) returns (status: FileStatus)
      requires View().WellFormed()
      modifies this
      ensures var r := DeletedFile(old(View()), p);
              && status == (if r.Some? then FileOk else InvalidPage)
              && View() == if r.Some? then r.value else old(View())
    {
      hide Stacked, Chain, LastBelow, Ascending;
      var h := header;
      var read := ReadPage(p);
      if read.None? {
        return InvalidPage;
      }
      var existing := read.value;
      var previous := NewPage();
      LeadsTo(View().UsedPages(), h.firstUsed, pages, p);
      if p == h.firstUsed {
        h := h.(firstUsed := existing.nextPage);
      } else {
        previous := FindPrevious(p);
        previous := previous.(nextPage := existing.nextPage);
      }
      existing := NewPage().(nextPage := h.firstFree);
      h := h.(firstFree := p, numFree := h.numFree + 1);
      if previous.pageNumber != INVALID_NUMBER {
        WriteRaw(previous.pageNumber, previous);
      }
      WriteRaw(p, existing);
      header := h;
      return FileOk;
    }
  }
}
