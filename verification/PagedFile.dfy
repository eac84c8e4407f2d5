// The value of a file of pages and what allocation and deletion make of it. Used pages are linked in
// ascending order through their next pointers, free pages in last-in-first-out order through theirs.
module PagedFile {
  import opened Types
  import opened SlottedPage
  import opened PageList

  datatype FileHeader = FileHeader(numPages: nat, firstUsed: PageId, numFree: nat, firstFree: PageId)

  datatype FileStatus = FileOk | InvalidPage

  datatype FileState = FileState(header: FileHeader, pages: map<PageId, PageState>) {
    // A page that is not in use has page number 0 on disk.
    function UsedPages(): set<PageId> {
      set p | p in pages && pages[p].pageNumber != INVALID_NUMBER
    }

    function FreePages(): set<PageId> {
      set p | p in pages && pages[p].pageNumber == INVALID_NUMBER
    }

    // The used pages in the order of their list.
    function UsedList(): seq<PageId> {
      Chain(pages, header.firstUsed, |UsedPages()|)
    }

    // The free list, most recently deleted page first.
    function FreeList(): seq<PageId> {
      Chain(pages, header.firstFree, header.numFree)
    }

    // Pages are numbered 1 .. num_pages - 1; free pages are empty.
    ghost predicate Numbered() {
      && header.numPages >= 1
      && (forall p :: p in pages <==> 1 <= p < header.numPages)
      && (forall p | p in UsedPages() :: pages[p].pageNumber == p)
      && (forall p | p in FreePages() :: pages[p] == NewPage().(nextPage := pages[p].nextPage))
    }

    ghost predicate WellFormed() {
      && Numbered()
      && Ascending(UsedPages(), header.firstUsed, pages)
      && Stacked(FreePages(), header.firstFree, pages, header.numFree)
    }

    function SetNext(p: PageId, q: PageId): FileState
      requires p in pages
    {
      this.(pages := pages[p := pages[p].(nextPage := q)])
    }
  }

  // A file just created: only the header.
  function NewFile(): FileState {
    FileState(FileHeader(1, INVALID_NUMBER, 0, INVALID_NUMBER), map[])
  }

  function ReadFilePage(f: FileState, p: PageId): Option<PageState> {
    if p >= f.header.numPages || p !in f.UsedPages() then None else Some(f.pages[p])
  }

  // The public writePage: the next pointer on disk is kept, whatever the page written says.
  function WriteFilePage(f: FileState, p: PageId, page: PageState): Option<FileState> {
    if p !in f.UsedPages() then None
    else Some(f.(pages := f.pages[p := page.(nextPage := f.pages[p].nextPage)]))
  }

  datatype Allocation = Allocation(file: FileState, number: PageId, page: PageState)

  function AllocatedFile(f: FileState): (a: Allocation)
    requires f.WellFormed()
  {
    if f.header.numFree > 0 then AllocateFree(f) else AllocateNew(f)
  }

  // Reuses the page most recently deleted. When no page is in use, it keeps the next pointer it had in
  // the free list.
  function AllocateFree(f: FileState): (a: Allocation)
    requires f.WellFormed() && f.header.numFree > 0
  {
    Pop(f.FreePages(), f.header.firstFree, f.pages, f.header.numFree);
    var p := f.header.firstFree;
    var taken := f.pages[p].(pageNumber := p);
    var header := f.header.(firstFree := taken.nextPage, numFree := f.header.numFree - 1);
    var last := LastBelow(f.UsedPages(), p);
    if last == INVALID_NUMBER then
      var page := if f.header.firstUsed == INVALID_NUMBER then taken else taken.(nextPage := f.header.firstUsed);
      Allocation(FileState(header.(firstUsed := p), f.pages[p := page]), p, page)
    else
      var page := taken.(nextPage := f.pages[last].nextPage);
      Allocation(FileState(header, f.pages[p := page]).SetNext(last, p), p, page)
  }

  // Extends the file by one page, linked in at the end.
  function AllocateNew(f: FileState): (a: Allocation)
    requires f.WellFormed()
  {
    var p := f.header.numPages;
    var page := NewPage().(pageNumber := p);
    var grown := FileState(f.header.(numPages := p + 1), f.pages[p := page]);
    var last := LastBelow(f.UsedPages(), p);
    if last == INVALID_NUMBER then
      Allocation(grown.(header := grown.header.(firstUsed := p)), p, page)
    else
      Allocation(grown.SetNext(last, p), p, page)
  }

  function DeletedFile(f: FileState, p: PageId): Option<FileState>
    requires f.WellFormed()
  {
    if ReadFilePage(f, p).None? then None
    else
      var next := f.pages[p].nextPage;
      var freed := NewPage().(nextPage := f.header.firstFree);
      var header := f.header.(firstFree := p, numFree := f.header.numFree + 1);
      var last := LastBelow(f.UsedPages(), p);
      if last == INVALID_NUMBER then
        Some(FileState(header.(firstUsed := next), f.pages[p := freed]))
      else
        Some(FileState(header, f.SetNext(last, next).pages[p := freed]))
  }
}
