/** The two lists a page file threads through its page headers: the used pages, in
    ascending order, and the free pages (p2/src/file.h, p2/src/file.cpp). */
module PageLists {
  import opened Storage
  import opened BufferSpec

  type PageMap = map<PageId, Page>

  /** The file header; page 0 of the file. */
  datatype FileHeader = FileHeader(numPages: nat, firstUsedPage: PageId, numFreePages: nat, firstFreePage: PageId)

  /** The body of an initialised page. */
  const BLANK: Body := ""

  ghost function NextIn(list: seq<PageId>, i: nat): PageId {
    if i + 1 < |list| then list[i + 1] else INVALID_NUMBER
  }

  ghost function HeadOf(list: seq<PageId>): PageId {
    if list == [] then INVALID_NUMBER else list[0]
  }

  ghost predicate Ascending(list: seq<PageId>) {
    forall i, j :: 0 <= i < j < |list| ==> list[i] < list[j]
  }

  ghost predicate UsedChain(pages: PageMap, used: seq<PageId>) {
    forall i :: 0 <= i < |used| ==>
      used[i] in pages && pages[used[i]].number == used[i] && pages[used[i]].next == NextIn(used, i)
  }

  ghost predicate FreeChain(pages: PageMap, free: seq<PageId>) {
    && (forall i :: 0 <= i < |free| ==>
          free[i] in pages && pages[free[i]] == Page(INVALID_NUMBER, NextIn(free, i), BLANK))
    && (forall i, j :: 0 <= i < j < |free| ==> free[i] != free[j])
  }

  /** The pages of the file are 1..numPages-1, each on one of the two lists. */
  ghost predicate Partition(numPages: nat, pages: PageMap, used: seq<PageId>, free: seq<PageId>) {
    && (forall p :: p in pages <==> 1 <= p < numPages)
    && (forall p :: p in pages ==> p in used || p in free)
    && (forall p :: p in used ==> p !in free)
  }

  ghost predicate Threaded(h: FileHeader, pages: PageMap, used: seq<PageId>, free: seq<PageId>) {
    && h.numPages >= 1 && h.firstUsedPage == HeadOf(used) && h.firstFreePage == HeadOf(free) && h.numFreePages == |free|
    && Ascending(used) && UsedChain(pages, used) && FreeChain(pages, free)
    && Partition(h.numPages, pages, used, free)
  }

  /** What clients see: the body of every page in use. */
  ghost function UsedBodies(pages: PageMap): map<PageId, Body> {
    map p | p in pages && pages[p].number != INVALID_NUMBER :: pages[p].body
  }

  /** The disk after page n is linked in behind used[k - 1]. */
  ghost function LinkedIn(pages: PageMap, used: seq<PageId>, k: nat, n: PageId, next: PageId): PageMap
    requires k <= |used| && (k > 0 ==> used[k - 1] in pages)
  {
    var pages1 := pages[n := Page(n, next, BLANK)];
    if k > 0 then pages1[used[k - 1] := pages[used[k - 1]].(next := n)] else pages1
  }

  ghost function InsertedAt(used: seq<PageId>, k: nat, n: PageId): (r: seq<PageId>)
    requires k <= |used|
    ensures forall p :: p in r <==> p in used || p == n
  {
    used[..k] + [n] + used[k..]
  }

  /** k is where n belongs in the ascending list. */
  ghost predicate Fits(used: seq<PageId>, k: nat, n: PageId)
    requires k <= |used|
  {
    (k > 0 ==> used[k - 1] < n) && (k < |used| ==> n < used[k])
  }

  lemma LinkKeepsOrder(used: seq<PageId>, k: nat, n: PageId)
    requires Ascending(used) && k <= |used| && Fits(used, k, n)
    ensures Ascending(InsertedAt(used, k, n))
  {
  }

  lemma LinkKeepsChain(pages: PageMap, used: seq<PageId>, k: nat, n: PageId, next: PageId)
    requires UsedChain(pages, used) && Ascending(used) && k <= |used| && Fits(used, k, n)
    requires next == if k < |used| then used[k] else INVALID_NUMBER
    ensures UsedChain(LinkedIn(pages, used, k, n, next), InsertedAt(used, k, n))
  {
    hide Ascending, LinkedIn;
    var r, pages1 := InsertedAt(used, k, n), LinkedIn(pages, used, k, n, next);
    forall i | 0 <= i < |r| ensures r[i] in pages1 && pages1[r[i]].number == r[i] && pages1[r[i]].next == NextIn(r, i) {
      if i != k {
        LinkedEntry(pages, used, k, n, next, if i < k then i else i - 1);
      } else {
        LinkedNew(pages, used, k, n, next);
      }
    }
  }

  lemma LinkedEntry(pages: PageMap, used: seq<PageId>, k: nat, n: PageId, next: PageId, o: nat)
    requires UsedChain(pages, used) && Ascending(used) && k <= |used| && Fits(used, k, n) && o < |used|
    ensures used[o] in pages && used[o] in LinkedIn(pages, used, k, n, next)
    ensures LinkedIn(pages, used, k, n, next)[used[o]]
         == if o == k - 1 then pages[used[o]].(next := n) else pages[used[o]]
  {
  }

  lemma Apart(used: seq<PageId>, o: nat, k: nat, n: PageId)
    requires Ascending(used) && k <= |used| && Fits(used, k, n) && o < |used|
    ensures used[o] != n && (k > 0 && o != k - 1 ==> used[o] != used[k - 1])
  {
  }

  lemma LinkedNew(pages: PageMap, used: seq<PageId>, k: nat, n: PageId, next: PageId)
    requires UsedChain(pages, used) && k <= |used| && Fits(used, k, n)
    ensures n in LinkedIn(pages, used, k, n, next) && LinkedIn(pages, used, k, n, next)[n] == Page(n, next, BLANK)
  {
  }

  /** Linking in a page taken from the head of the free list, or a page past the end. */
  lemma LinkThreads(h: FileHeader, pages: PageMap, used: seq<PageId>, free: seq<PageId>, k: nat, n: PageId,
                    next: PageId, h1: FileHeader)
    requires Threaded(h, pages, used, free) && k <= |used| && Fits(used, k, n)
    requires next == if k < |used| then used[k] else INVALID_NUMBER
    requires n == if free == [] then h.numPages else free[0]
    requires h1.firstUsedPage == if k == 0 then n else h.firstUsedPage
    requires free != [] ==>
      h1.numPages == h.numPages && h1.firstFreePage == NextIn(free, 0) && h1.numFreePages == h.numFreePages - 1
    requires free == [] ==>
      h1.numPages == h.numPages + 1 && h1.firstFreePage == h.firstFreePage && h1.numFreePages == h.numFreePages
    ensures Threaded(h1, LinkedIn(pages, used, k, n, next), InsertedAt(used, k, n), Rest(free))
    ensures n !in UsedBodies(pages) && UsedBodies(LinkedIn(pages, used, k, n, next)) == UsedBodies(pages)[n := BLANK]
  {
    hide UsedChain, Ascending, FreeChain, Partition, LinkedIn;
    UsedInPages(pages, used);
    LinkKeepsOrder(used, k, n);
    LinkKeepsChain(pages, used, k, n, next);
    LinkShrinksFree(h.numPages, pages, used, free, k, n, next);
    LinkPartition(h.numPages, pages, used, free, k, n, next);
    LinkBodies(h.numPages, pages, used, free, k, n, next);
  }

  ghost function Rest(free: seq<PageId>): seq<PageId> {
    if free == [] then [] else free[1..]
  }

  lemma LinkShrinksFree(numPages: nat, pages: PageMap, used: seq<PageId>, free: seq<PageId>, k: nat, n: PageId,
                        next: PageId)
    requires FreeChain(pages, free) && Partition(numPages, pages, used, free) && k <= |used|
    requires (k > 0 ==> used[k - 1] in pages)
    requires free != [] ==> n == free[0]
    requires free == [] ==> n == numPages
    ensures FreeChain(LinkedIn(pages, used, k, n, next), Rest(free))
    ensures HeadOf(Rest(free)) == if free == [] then INVALID_NUMBER else NextIn(free, 0)
  {
  }

  lemma LinkPartition(numPages: nat, pages: PageMap, used: seq<PageId>, free: seq<PageId>, k: nat, n: PageId,
                      next: PageId)
    requires FreeChain(pages, free) && Partition(numPages, pages, used, free) && k <= |used|
    requires numPages >= 1 && forall p :: p in used ==> p in pages && pages[p].number == p
    requires free != [] ==> n == free[0]
    requires free == [] ==> n == numPages
    ensures Partition(if free == [] then numPages + 1 else numPages, LinkedIn(pages, used, k, n, next),
                      InsertedAt(used, k, n), Rest(free))
  {
  }

  lemma LinkBodies(numPages: nat, pages: PageMap, used: seq<PageId>, free: seq<PageId>, k: nat, n: PageId, next: PageId)
    requires FreeChain(pages, free) && Partition(numPages, pages, used, free) && k <= |used|
    requires numPages >= 1 && forall p :: p in used ==> p in pages && pages[p].number == p
    requires n == if free == [] then numPages else free[0]
    ensures n >= 1 && n !in UsedBodies(pages)
    ensures UsedBodies(LinkedIn(pages, used, k, n, next)) == UsedBodies(pages)[n := BLANK]
  {
    assert k > 0 ==> used[k - 1] in used;
  }

  lemma UsedInPages(pages: PageMap, used: seq<PageId>)
    requires UsedChain(pages, used)
    ensures forall p :: p in used ==> p in pages && pages[p].number == p
  {
  }

  /** The disk after page used[k] is cleared and put at the head of the free list. */
  ghost function Unlinked(pages: PageMap, used: seq<PageId>, k: nat, firstFree: PageId): PageMap
    requires k < |used| && (k > 0 ==> used[k - 1] in pages)
  {
    var pages1 := if k > 0 then pages[used[k - 1] := pages[used[k - 1]].(next := NextIn(used, k))] else pages;
    pages1[used[k] := Page(INVALID_NUMBER, firstFree, BLANK)]
  }

  ghost function RemovedAt(used: seq<PageId>, k: nat): (r: seq<PageId>)
    requires k < |used|
  {
    used[..k] + used[k + 1..]
  }

  lemma RemovedElements(used: seq<PageId>, k: nat)
    requires Ascending(used) && k < |used|
    ensures Ascending(RemovedAt(used, k))
    ensures forall p :: p in RemovedAt(used, k) <==> p in used && p != used[k]
  {
  }

  lemma UnlinkedEntry(pages: PageMap, used: seq<PageId>, k: nat, firstFree: PageId, o: nat)
    requires UsedChain(pages, used) && Ascending(used) && k < |used| && o < |used| && o != k
    ensures used[o] in pages && (k > 0 ==> used[k - 1] in pages) && used[o] in Unlinked(pages, used, k, firstFree)
    ensures Unlinked(pages, used, k, firstFree)[used[o]]
         == if o == k - 1 then pages[used[o]].(next := NextIn(used, k)) else pages[used[o]]
  {
    hide UsedChain;
    UsedInPages(pages, used);
    assert used[o] in used && (k > 0 ==> used[k - 1] in used);
    assert o < k ==> used[o] < used[k];
    assert k < o ==> used[k] < used[o];
    assert o < k - 1 ==> used[o] < used[k - 1];
    assert k > 0 && k - 1 < o ==> used[k - 1] < used[o];
  }

  lemma UnlinkKeepsChain(pages: PageMap, used: seq<PageId>, k: nat, firstFree: PageId)
    requires UsedChain(pages, used) && Ascending(used) && k < |used|
    ensures k > 0 ==> used[k - 1] in pages
    ensures UsedChain(Unlinked(pages, used, k, firstFree), RemovedAt(used, k))
  {
    hide Ascending, Unlinked;
    var r, pages1 := RemovedAt(used, k), Unlinked(pages, used, k, firstFree);
    forall i | 0 <= i < |r| ensures r[i] in pages1 && pages1[r[i]].number == r[i] && pages1[r[i]].next == NextIn(r, i) {
      UnlinkedEntry(pages, used, k, firstFree, if i < k then i else i + 1);
    }
  }

  /** A deleted page goes to the head of the free list. */
  lemma UnlinkThreads(h: FileHeader, pages: PageMap, used: seq<PageId>, free: seq<PageId>, k: nat, h1: FileHeader)
    requires Threaded(h, pages, used, free) && k < |used|
    requires h1 == FileHeader(h.numPages, if k == 0 then NextIn(used, 0) else h.firstUsedPage,
                              h.numFreePages + 1, used[k])
    ensures k > 0 ==> used[k - 1] in pages
    ensures Threaded(h1, Unlinked(pages, used, k, h.firstFreePage), RemovedAt(used, k), [used[k]] + free)
    ensures UsedBodies(Unlinked(pages, used, k, h.firstFreePage)) == UsedBodies(pages) - {used[k]}
  {
    hide UsedChain, Ascending, FreeChain, Partition, Unlinked;
    UsedInPages(pages, used);
    RemovedElements(used, k);
    UnlinkKeepsChain(pages, used, k, h.firstFreePage);
    UnlinkGrowsFree(h.numPages, pages, used, free, k);
    UnlinkPartition(h.numPages, pages, used, free, k, h.firstFreePage);
  }

  lemma UnlinkGrowsFree(numPages: nat, pages: PageMap, used: seq<PageId>, free: seq<PageId>, k: nat)
    requires FreeChain(pages, free) && Partition(numPages, pages, used, free) && k < |used|
    requires (k > 0 ==> used[k - 1] in pages)
    ensures FreeChain(Unlinked(pages, used, k, HeadOf(free)), [used[k]] + free)
  {
  }

  lemma UnlinkPartition(numPages: nat, pages: PageMap, used: seq<PageId>, free: seq<PageId>, k: nat, firstFree: PageId)
    requires Partition(numPages, pages, used, free) && k < |used|
    requires forall p :: p in used ==> p in pages && pages[p].number == p
    requires forall p :: p in RemovedAt(used, k) <==> p in used && p != used[k]
    ensures Partition(numPages, Unlinked(pages, used, k, firstFree), RemovedAt(used, k), [used[k]] + free)
    ensures UsedBodies(Unlinked(pages, used, k, firstFree)) == UsedBodies(pages) - {used[k]}
  {
    assert used[k] in used && (k > 0 ==> used[k - 1] in used);
    assert forall p :: p in [used[k]] + free <==> p == used[k] || p in free;
  }

  /** Rewriting a page in place, its next pointer kept. */
  lemma WriteThreads(h: FileHeader, pages: PageMap, used: seq<PageId>, free: seq<PageId>, page: Page)
    requires Threaded(h, pages, used, free) && page.number in pages && pages[page.number].number != INVALID_NUMBER
    ensures Threaded(h, pages[page.number := page.(next := pages[page.number].next)], used, free)
    ensures UsedBodies(pages[page.number := page.(next := pages[page.number].next)])
         == UsedBodies(pages)[page.number := page.body]
  {
    var pages1 := pages[page.number := page.(next := pages[page.number].next)];
    assert Partition(h.numPages, pages1, used, free);
    assert FreeChain(pages1, free);
    assert UsedChain(pages1, used);
  }

  /** A page is in use exactly when its number is stored in it. */
  lemma UsedNumbered(h: FileHeader, pages: PageMap, used: seq<PageId>, free: seq<PageId>, p: PageId)
    requires Threaded(h, pages, used, free)
    ensures p in used <==> p in UsedBodies(pages)
    ensures p in used ==> pages[p].number == p && p >= 1
  {
  }

  /** No lists fit a file whose only used page points on to a free one. */
  lemma NoLists(h: FileHeader, pages: PageMap, n: PageId, m: PageId, used: seq<PageId>, free: seq<PageId>)
    requires n != INVALID_NUMBER && h.firstUsedPage == n && n in pages && pages[n].next == m
    requires m != INVALID_NUMBER && m in pages && pages[m].number == INVALID_NUMBER
    ensures !Threaded(h, pages, used, free)
  {
  }

  lemma LinkAt(pages: PageMap, used: seq<PageId>, i: nat)
    requires UsedChain(pages, used) && i < |used|
    ensures used[i] in pages && pages[used[i]].number == used[i] && pages[used[i]].next == NextIn(used, i)
  {
  }

  /** A missing successor means the end of the list. */
  lemma SuccessorIs(h: FileHeader, pages: PageMap, used: seq<PageId>, free: seq<PageId>, i: nat)
    requires Threaded(h, pages, used, free) && i < |used|
    ensures NextIn(used, i) == INVALID_NUMBER <==> i + 1 == |used|
    ensures used[i] != INVALID_NUMBER
  {
    assert used[i] in pages;
    assert i + 1 < |used| ==> used[i + 1] in pages;
  }

  lemma FreeHead(h: FileHeader, pages: PageMap, used: seq<PageId>, free: seq<PageId>)
    requires Threaded(h, pages, used, free)
    ensures free != [] ==>
      && free[0] in pages && free[0] >= 1 && free[0] !in used
      && pages[free[0]] == Page(INVALID_NUMBER, NextIn(free, 0), BLANK)
    ensures |free| > 1 ==>
      free[1] in pages && free[1] >= 1 && free[1] != free[0] && pages[free[1]].number == INVALID_NUMBER
    ensures used != [] ==> 1 <= used[0] < h.numPages && used[|used| - 1] < h.numPages
  {
  }

  /** What allocation leaves behind, lists threaded or not. */
  lemma Allocated(h: FileHeader, pages: PageMap, used: seq<PageId>, free: seq<PageId>, k: nat, page: Page,
                  h1: FileHeader)
    requires Threaded(h, pages, used, free) && k <= |used| && Fits(used, k, page.number)
    requires page.number == (if free == [] then h.numPages else free[0]) && page.body == BLANK
    requires page.next == if k < |used| then used[k]
                          else if used == [] && free != [] then NextIn(free, 0) else INVALID_NUMBER
    requires h1 == FileHeader(if free == [] then h.numPages + 1 else h.numPages,
                              if k == 0 then page.number else h.firstUsedPage,
                              if free == [] then 0 else h.numFreePages - 1,
                              if free == [] then INVALID_NUMBER else NextIn(free, 0))
    ensures k > 0 ==> used[k - 1] in pages && pages[used[k - 1]].number == used[k - 1] != INVALID_NUMBER
    ensures used != [] || |free| <= 1 ==>
      Threaded(h1, LinkedIn(pages, used, k, page.number, page.next), InsertedAt(used, k, page.number), Rest(free))
    ensures used == [] && |free| > 1 ==>
      forall us, fs :: !Threaded(h1, LinkedIn(pages, used, k, page.number, page.next), us, fs)
    ensures page.number !in UsedBodies(pages)
    ensures UsedBodies(LinkedIn(pages, used, k, page.number, page.next)) == UsedBodies(pages)[page.number := BLANK]
  {
    hide UsedChain, FreeChain, Ascending, Partition, UsedBodies;
    FreeHead(h, pages, used, free);
    UsedInPages(pages, used);
    assert k > 0 ==> used[k - 1] in used;
    LinkBodies(h.numPages, pages, used, free, k, page.number, page.next);
    if k > 0 {
      SuccessorIs(h, pages, used, free, k - 1);
    }
    if used != [] || |free| <= 1 {
      LinkThreads(h, pages, used, free, k, page.number, page.next, h1);
    } else {
      forall us, fs ensures !Threaded(h1, LinkedIn(pages, used, k, page.number, page.next), us, fs) {
        NoLists(h1, LinkedIn(pages, used, k, page.number, page.next), page.number, free[1], us, fs);
      }
    }
  }
}
