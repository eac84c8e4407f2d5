// The two kinds of files the buffer manager works with: files of linked pages, and blob files, whose pages are
// read and written whole and never deleted (class File and its subclasses in file.h and file.cpp).
module Files {
  import opened Types
  import opened SlottedPage
  import PageList
  import PagedFile
  import FileCorrectness

  datatype File =
    | Paged(file: PagedFile.FileState)
    | Blob(blobHeader: PagedFile.FileHeader, blobPages: map<PageId, PageState>)
  {
    function Header(): PagedFile.FileHeader {
      if Paged? then file.header else blobHeader
    }

    function Pages(): map<PageId, PageState> {
      if Paged? then file.pages else blobPages
    }

    function UsedPages(): set<PageId> {
      if Paged? then file.UsedPages() else blobPages.Keys
    }

    ghost predicate WellFormed() {
      if Paged? then file.WellFormed()
      else
        && blobHeader.numPages >= 1 && (forall p :: p in blobPages <==> 1 <= p < blobHeader.numPages)
        && PageList.IsNext(blobPages.Keys, INVALID_NUMBER, blobHeader.firstUsed)
        && blobHeader.numFree == 0 && blobHeader.firstFree == INVALID_NUMBER
    }
  }

  // What clients see of a page: all of it in a blob file, all but its next pointer in a file of linked pages.
  function Shown(blob: bool, page: PageState): PageState {
    if blob then page else FileCorrectness.Contents(page)
  }

  function ReadFilePage(f: File, p: PageId): Option<PageState> {
    match f
    case Paged(g) => PagedFile.ReadFilePage(g, p)
    case Blob(_, pages) => if p in pages then Some(pages[p]) else None
  }

  function WriteFilePage(f: File, p: PageId, page: PageState): Option<File> {
    match f
    case Paged(g) => (match PagedFile.WriteFilePage(g, p, page) case None => None case Some(h) => Some(Paged(h)))
    case Blob(header, pages) => if p in pages then Some(Blob(header, pages[p := page])) else None
  }

  datatype Allocation = Allocation(file: File, number: PageId, page: PageState)

  // A blob file only grows; its new page does not even hold its own number.
  function AllocatedFile(f: File): (a: Allocation)
    requires f.WellFormed()
  {
    match f
    case Paged(g) =>
      var a := PagedFile.AllocatedFile(g);
      Allocation(Paged(a.file), a.number, a.page)
    case Blob(header, pages) =>
      var p := header.numPages;
      var first := if header.firstUsed == INVALID_NUMBER then p else header.firstUsed;
      Allocation(Blob(header.(numPages := p + 1, firstUsed := first), pages[p := NewPage()]), p, NewPage())
  }

  // Blob files refuse to delete pages.
  function DeletedFile(f: File, p: PageId): Option<File>
    requires f.WellFormed()
  {
    match f
    case Paged(g) => (match PagedFile.DeletedFile(g, p) case None => None case Some(h) => Some(Paged(h)))
    case Blob(_, _) => None
  }

  // The page as it is handed out, as clients see it.
  function FreshPage(blob: bool, number: PageId): PageState {
    if blob then NewPage() else NewPage().(pageNumber := number)
  }

  // Allocation in a file of linked pages can break it.
  predicate MayAllocate(f: File) {
    f.Blob? || f.file.header.firstUsed != 0 || f.file.header.numFree <= 1
  }

  // ----- what clients see and what the lists say -----

  // The pages in use other than q look the same.
  ghost predicate SameContents(f: File, g: File, q: PageId) {
    f.Blob? == g.Blob? &&
    forall p | p in f.UsedPages() && p != q && p in f.Pages() ::
      p in g.UsedPages() && p in g.Pages() && Shown(f.Blob?, g.Pages()[p]) == Shown(f.Blob?, f.Pages()[p])
  }

  // The same kind, header and pages; in a file of linked pages the same page numbers and next pointers.
  ghost predicate SameLinks(f: File, g: File) {
    && f.Blob? == g.Blob?
    && (f.Blob? ==> g.blobHeader == f.blobHeader && g.blobPages.Keys == f.blobPages.Keys)
    && (f.Paged? ==> FileCorrectness.SameLinks(f.file, g.file))
  }

  ghost predicate Allocated(f: File, a: Allocation) {
    && a.number != 0 && a.number !in f.UsedPages()
    && a.file.Blob? == f.Blob?
    && a.file.UsedPages() == f.UsedPages() + {a.number}
    && a.number in a.file.Pages() && a.page == a.file.Pages()[a.number]
    && Shown(f.Blob?, a.page) == FreshPage(f.Blob?, a.number)
    && (f.Paged? ==> a.page.pageNumber == a.number)
    && SameContents(f, a.file, a.number)
  }

  lemma UsedPagesExist(f: File)
    requires f.WellFormed()
    ensures f.UsedPages() <= f.Pages().Keys && 0 !in f.UsedPages()
    ensures forall p | p in f.UsedPages() :: 1 <= p < f.Header().numPages
    ensures f.Paged? ==> forall p | p in f.UsedPages() :: f.Pages()[p].pageNumber == p
  {
    if f.Paged? {
      assert f.file.Numbered();
    }
  }

  // The header leads to the first page in use, and in a file of linked pages next pointers lead through the others
  // in ascending order.
  lemma LinksAscend(f: File)
    requires f.WellFormed()
    ensures PageList.IsNext(f.UsedPages(), 0, f.Header().firstUsed)
    ensures f.Paged? ==> forall p | p in f.UsedPages() && p in f.Pages() ::
              PageList.IsNext(f.UsedPages(), p, f.Pages()[p].nextPage)
  {
    hide PagedFile.FileState.UsedPages;
  }

  lemma ReadIsUsed(f: File, p: PageId)
    requires f.WellFormed()
    ensures f.UsedPages() <= f.Pages().Keys
    ensures ReadFilePage(f, p) == if p in f.UsedPages() then Some(f.Pages()[p]) else None
  {
    UsedPagesExist(f);
  }

  lemma AllocateWellFormedIff(f: File)
    requires f.WellFormed()
    ensures Allocated(f, AllocatedFile(f))
    ensures AllocatedFile(f).file.WellFormed() <==> MayAllocate(f)
  {
    hide PagedFile.FileState.WellFormed, PagedFile.FileState.UsedPages, PagedFile.AllocatedFile;
    if f.Paged? {
      FileCorrectness.AllocateWellFormedIff(f.file);
      UsedPagesExist(f);
      var a := PagedFile.AllocatedFile(f.file);
      forall p | p in a.file.UsedPages()
        ensures p in a.file.pages
      {
        UsedExists(a.file, p);
      }
    }
  }

  lemma UsedExists(f: PagedFile.FileState, p: PageId)
    ensures p in f.UsedPages() ==> p in f.pages
  {
  }

  lemma WriteKeepsLists(f: File, p: PageId, page: PageState)
    requires f.WellFormed() && (f.Paged? ==> page.pageNumber == p)
    ensures WriteFilePage(f, p, page).Some? <==> p in f.UsedPages()
    ensures f.UsedPages() <= f.Pages().Keys
    ensures p in f.UsedPages() ==>
              var g := WriteFilePage(f, p, page).value;
              && g.WellFormed() && SameLinks(f, g) && g.UsedPages() == f.UsedPages()
              && g.Pages().Keys == f.Pages().Keys
              && Shown(f.Blob?, g.Pages()[p]) == Shown(f.Blob?, page)
              && (forall r | r in f.Pages() && r != p :: g.Pages()[r] == f.Pages()[r])
  {
    hide PagedFile.FileState.WellFormed, PagedFile.FileState.UsedPages, PagedFile.WriteFilePage;
    UsedPagesExist(f);
    if f.Paged? {
      FileCorrectness.WriteKeepsLists(f.file, p, page);
    }
  }

  lemma DeleteCorrect(f: File, p: PageId)
    requires f.WellFormed()
    ensures DeletedFile(f, p).None? <==> f.Blob? || p !in f.UsedPages()
    ensures f.Paged? && p in f.UsedPages() ==>
              var g := DeletedFile(f, p).value;
              && g.WellFormed() && g.UsedPages() == f.UsedPages() - {p} && SameContents(f, g, p)
  {
    hide PagedFile.FileState.WellFormed, PagedFile.FileState.UsedPages, PagedFile.DeletedFile;
    if f.Paged? {
      FileCorrectness.DeleteCorrect(f.file, p);
      if p in f.UsedPages() {
        UsedPagesExist(DeletedFile(f, p).value);
      }
    }
  }

  lemma AllocatedLinks(f: File, g: File)
    requires f.WellFormed() && g.WellFormed() && SameLinks(f, g)
    ensures AllocatedFile(g).number == AllocatedFile(f).number
    ensures SameLinks(AllocatedFile(f).file, AllocatedFile(g).file)
    ensures MayAllocate(g) == MayAllocate(f)
  {
    hide PagedFile.AllocatedFile, PagedFile.FileState.WellFormed;
    if f.Paged? {
      FileCorrectness.AllocatedLinks(f.file, g.file);
    }
  }

  lemma DeletedLinks(f: File, g: File, p: PageId)
    requires f.WellFormed() && g.WellFormed() && SameLinks(f, g)
    ensures DeletedFile(f, p).Some? <==> DeletedFile(g, p).Some?
    ensures DeletedFile(f, p).Some? ==> SameLinks(DeletedFile(f, p).value, DeletedFile(g, p).value)
  {
    hide PagedFile.DeletedFile, PagedFile.FileState.WellFormed;
    if f.Paged? {
      FileCorrectness.DeletedLinks(f.file, g.file, p);
    }
  }

  lemma SameLinksUsed(f: File, g: File)
    requires SameLinks(f, g)
    ensures g.UsedPages() == f.UsedPages() && g.Header() == f.Header() && g.Pages().Keys == f.Pages().Keys
  {
    if f.Paged? {
      FileCorrectness.SamePagesUsed(f.file, g.file);
    }
  }

  // The class BlobFile: a header and pages on disk.
  class BlobFile {
    var header: PagedFile.FileHeader
    var pages: map<PageId, PageState>

    ghost function View(): File
      reads this
    {
      Blob(header, pages)
    }

    constructor ()
      ensures View() == Blob(PagedFile.FileHeader(1, INVALID_NUMBER, 0, INVALID_NUMBER), map[]) && View().WellFormed()
    {
      header := PagedFile.FileHeader(1, INVALID_NUMBER, 0, INVALID_NUMBER);
      pages := map[];
    }

    method AllocatePage() returns (p: PageId, newPage: PageState)
      requires View().WellFormed()
      modifies this
      ensures View().WellFormed() && Allocation(View(), p, newPage) == AllocatedFile(old(View()))
    {
      var h := header;
      newPage := NewPage();
      p := h.numPages;
      if h.firstUsed == INVALID_NUMBER {
        h := h.(firstUsed := h.numPages);
      }
      h := h.(numPages := h.numPages + 1);
      pages := pages[p := newPage];
      header := h;
    }

    // File::getFirstPageNo.
    method GetFirstPageNo() returns (p: PageId)
      requires View().WellFormed()
      ensures p == if pages == map[] then INVALID_NUMBER else 1
    {
      p := header.firstUsed;
      assert pages != map[] ==> 1 in pages;
    }

    method ReadPage(p: PageId) returns (page: PageState)
      requires View().WellFormed() && 1 <= p < header.numPages
      ensures ReadFilePage(View(), p) == Some(page)
    {
      page := pages[p];
    }

    method WritePage(p: PageId, page: PageState)
      requires View().WellFormed() && 1 <= p < header.numPages
      modifies this
      ensures WriteFilePage(old(View()), p, page) == Some(View())
    {
      pages := pages[p := page];
    }
  }
}
