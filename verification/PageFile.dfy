/** The page file, its header and page headers rewritten in place (p2/src/file.cpp; its
    twin is PageFile in p3/src/file.cpp). The disk is a map from page number to page. */
module PageFiles {
  import opened Storage
  import opened BufferSpec
  import opened PageLists

  datatype ReadOutcome = PageRead(page: Page) | InvalidPage

  class PageFile {
    var header: FileHeader
    var pages: PageMap
    ghost var used: seq<PageId>
    ghost var free: seq<PageId>

    ghost predicate Valid()
      reads this
    {
      Threaded(header, pages, used, free)
    }

    ghost function Contents(): map<PageId, Body>
      reads this
    {
      UsedBodies(pages)
    }

    /** A new file is its header alone (lines 226-231). */
    constructor ()
      ensures Valid() && Contents() == map[] && header.numPages == 1 && used == free == []
    {
      header := FileHeader(1, INVALID_NUMBER, 0, INVALID_NUMBER);
      pages, used, free := map[], [], [];
    }

    /** Reads a page in use. */
    method ReadPage(n: PageId) returns (r: ReadOutcome)
      requires Valid() && n != INVALID_NUMBER
      ensures r == if n in Contents() then PageRead(pages[n]) else InvalidPage
      ensures r.PageRead? ==> r.page.number == n && n in used
    {
      UsedNumbered(header, pages, used, free, n);
      if n >= header.numPages {
        return InvalidPage;
      }
      var page := pages[n];
      if page.number == INVALID_NUMBER {
        return InvalidPage;
      }
      return PageRead(page);
    }

    /** Writes a page back, keeping the next pointer on disk; fails on a deleted page. */
    method WritePage(page: Page) returns (ok: bool)
      requires Valid() && 1 <= page.number < header.numPages
      modifies this`pages
      ensures Valid()
      ensures ok <==> page.number in old(Contents())
      ensures Contents() == if ok then old(Contents())[page.number := page.body] else old(Contents())
      ensures ok ==> pages == old(pages)[page.number := Page(page.number, old(pages[page.number].next), page.body)]
      ensures !ok ==> pages == old(pages)
    {
      var onDisk := pages[page.number];
      if onDisk.number == INVALID_NUMBER {
        return false;
      }
      WriteThreads(header, pages, used, free, page);
      pages := pages[page.number := page.(next := onDisk.next)];
      ok := true;
    }

    /** The last used page before n: the first whose successor is past n or missing
        (lines 107-114). */
    method FindPredecessor(n: PageId) returns (existing: Page, ghost k: nat)
      requires Valid() && used != [] && used[0] < n && n !in used
      ensures 1 <= k <= |used| && existing == pages[used[k - 1]] && existing.next == NextIn(used, k - 1)
      ensures Fits(used, k, n)
    {
      hide Partition, FreeChain, Ascending;
      var iter := header.firstUsedPage;
      ghost var i := 0;
      LinkAt(pages, used, 0);
      SuccessorIs(header, pages, used, free, 0);
      while iter != INVALID_NUMBER
        invariant i < |used| && iter == used[i] && used[i] < n && iter in pages && pages[iter].next == NextIn(used, i)
        invariant iter != INVALID_NUMBER
        decreases |used| - i
      {
        var next := pages[iter].next;
        if next > n || next == INVALID_NUMBER {
          k := i + 1;
          assert k < |used| ==> used[k] in used;
          SuccessorIs(header, pages, used, free, i);
          return pages[iter], k;
        }
        SuccessorIs(header, pages, used, free, i);
        iter := next;
        i := i + 1;
        assert used[i] in used;
        LinkAt(pages, used, i);
      }
    }

    /** The end of the used list (lines 128-133). */
    method FindLast() returns (existing: Page)
      requires Valid() && used != []
      ensures existing == pages[used[|used| - 1]]
    {
      hide Partition, FreeChain, Ascending;
      var iter := header.firstUsedPage;
      ghost var i := 0;
      LinkAt(pages, used, 0);
      while pages[iter].next != INVALID_NUMBER
        invariant i < |used| && iter == used[i] && iter in pages && pages[iter].next == NextIn(used, i)
        decreases |used| - i
      {
        SuccessorIs(header, pages, used, free, i);
        iter := pages[iter].next;
        i := i + 1;
        LinkAt(pages, used, i);
      }
      SuccessorIs(header, pages, used, free, i);
      existing := pages[iter];
    }

    /** Hands out a blank page: the head of the free list, else one past the end of the
        file. The lists stay threaded exactly when the used list was not empty or at most
        one page was free. */
    method AllocatePage() returns (newPage: Page)
      requires Valid()
      modifies this
      ensures newPage.number == if old(free) == [] then old(header.numPages) else old(free)[0]
      ensures newPage.number !in old(Contents()) && newPage.body == ""
      ensures newPage.number in pages && pages[newPage.number] == newPage
      ensures Contents() == old(Contents())[newPage.number := ""]
      ensures header.numPages == old(header.numPages) + if old(free) == [] then 1 else 0
      ensures old(used != [] || |free| <= 1) ==> Valid() && free == Rest(old(free))
      ensures old(used != [] || |free| <= 1) ==> forall p :: p in used <==> p in old(used) || p == newPage.number
      ensures old(used == [] && |free| > 1) ==>
        var n, next := old(free)[0], old(free)[1];
        && header == FileHeader(old(header.numPages), n, old(header.numFreePages) - 1, next)
        && pages == old(pages)[n := Page(n, next, "")]
      ensures old(used == [] && |free| > 1) ==> forall us, fs :: !Threaded(header, pages, us, fs)
    {
      hide UsedChain, FreeChain, Ascending, Partition, Rest;
      FreeHead(header, pages, used, free);
      var header1, existing := header, Page(INVALID_NUMBER, INVALID_NUMBER, BLANK);
      ghost var k := 0;
      if header1.numFreePages > 0 {
        var n := header1.firstFreePage;
        newPage := pages[n].(number := n);
        header1 := header1.(firstFreePage := newPage.next, numFreePages := header1.numFreePages - 1);
        if header1.firstUsedPage == INVALID_NUMBER || header1.firstUsedPage > n {
          if header1.firstUsedPage > n {
            newPage := newPage.(next := header1.firstUsedPage);
          }
          header1 := header1.(firstUsedPage := n);
        } else {
          existing, k := FindPredecessor(n);
          newPage := newPage.(next := existing.next);
          existing := existing.(next := n);
        }
      } else {
        newPage := Page(header1.numPages, INVALID_NUMBER, BLANK);
        if header1.firstUsedPage == INVALID_NUMBER {
          header1 := header1.(firstUsedPage := newPage.number);
        } else {
          existing := FindLast();
          existing := existing.(next := newPage.number);
          k := |used|;
        }
        header1 := header1.(numPages := header1.numPages + 1);
      }
      Allocated(header, pages, used, free, k, newPage, header1);
      assert existing == if k == 0 then Page(INVALID_NUMBER, INVALID_NUMBER,
                                             BLANK) else pages[used[k - 1]].(next := newPage.number);
      pages := pages[newPage.number := newPage];
      if existing.number != INVALID_NUMBER {
        pages := pages[existing.number := existing];
      }
      header := header1;
      used, free := InsertedAt(used, k, newPage.number), Rest(free);
    }

    /** Clears a page in use and puts it at the head of the free list. */
    method DeletePage(n: PageId) returns (ok: bool)
      requires Valid() && n != INVALID_NUMBER
      modifies this
      ensures Valid()
      ensures ok <==> n in old(Contents())
      ensures !ok ==> unchanged(this)
      ensures ok ==> Contents() == old(Contents()) - {n} && header.numPages == old(header.numPages)
      ensures ok ==> n in pages && pages[n] == Page(0, if old(free) == [] then 0 else old(free)[0], "")
      ensures ok ==> free == [n] + old(free) && forall p :: p in used <==> p in old(used) && p != n
    {
      hide UsedChain, FreeChain, Ascending, Partition;
      var read := ReadPage(n);
      if read.InvalidPage? {
        return false;
      }
      var header1, previous := header, Page(INVALID_NUMBER, INVALID_NUMBER, BLANK);
      ghost var k := 0;
      if n == header1.firstUsedPage {
        LinkAt(pages, used, 0);
        header1 := header1.(firstUsedPage := read.page.next);
      } else {
        previous, k := FindPrevious(n);
        previous := previous.(next := read.page.next);
      }
      UnlinkThreads(header, pages, used, free, k,
                    header1.(firstFreePage := n, numFreePages := header1.numFreePages + 1));
      RemovedElements(used, k);
      if previous.number != INVALID_NUMBER {
        pages := pages[previous.number := previous];
      }
      pages := pages[n := Page(INVALID_NUMBER, header1.firstFreePage, BLANK)];
      header := header1.(firstFreePage := n, numFreePages := header1.numFreePages + 1);
      used, free := RemovedAt(used, k), [n] + free;
      ok := true;
    }

    /** The used page that points to n (lines 195-201). */
    method FindPrevious(n: PageId) returns (previous: Page, ghost k: nat)
      requires Valid() && n in used && n != header.firstUsedPage
      ensures 0 < k < |used| && used[k] == n && previous == pages[used[k - 1]]
      ensures pages[n].number == n && pages[n].next == NextIn(used, k)
      ensures previous.number == used[k - 1] != INVALID_NUMBER
    {
      hide Partition, FreeChain, Ascending;
      var iter := header.firstUsedPage;
      ghost var i := 0;
      ghost var at :| 0 <= at < |used| && used[at] == n;
      LinkAt(pages, used, 0);
      LinkAt(pages, used, at);
      while pages[iter].next != n
        invariant i < at && iter == used[i] && iter in pages && pages[iter].next == used[i + 1]
        decreases at - i
      {
        SuccessorIs(header, pages, used, free, i);
        iter := pages[iter].next;
        i := i + 1;
        LinkAt(pages, used, i);
      }
      SuccessorIs(header, pages, used, free, i);
      LinkAt(pages, used, i);
      LinkAt(pages, used, i + 1);
      return pages[iter], i + 1;
    }
  }

  lemma HasMember(list: seq<PageId>)
    ensures list == [] || exists p :: p in list
  {
    if list != [] {
      assert list[0] in list;
    }
  }

  /** A run that unthreads the file: two pages allocated, both deleted, one allocated again.
      It keeps its free-list successor, so the used list runs into the free one. */
  method AllocationUnthreads() returns (f: PageFile)
    ensures f.Contents() == map[2 := ""] && f.header.firstUsedPage == 2
    ensures 2 in f.pages && f.pages[2].next == 1
    ensures forall us, fs :: !Threaded(f.header, f.pages, us, fs)
  {
    hide Threaded;
    f := new PageFile();
    var first := f.AllocatePage();
    assert f.free == [] && forall p :: p in f.used ==> p == 1;
    var second := f.AllocatePage();
    assert f.free == [] && forall p :: p in f.used ==> p == 1 || p == 2;
    var gone := f.DeletePage(1);
    assert f.free == [1] && forall p :: p in f.used ==> p == 2;
    gone := f.DeletePage(2);
    assert f.free == [2, 1] && forall p :: p !in f.used;
    HasMember(f.used);
    var third := f.AllocatePage();
  }
}
