/** Sequential scan of a page file's records (p3/src/filescan.cpp) over the page list and
    the record iterator of a page (p3/src/page_iterator.h). */
module FileScans {
  import opened Storage
  import opened SlotDirectory
  import opened SlottedPage
  import opened PageLists
  import opened PageFiles

  /** What the buffer manager hands out for each page of the file. */
  type Frames = map<PageId, Page>

  /** The slot directory of each page. */
  type Directories = map<PageId, seq<Slot>>

  ghost function FrameObjects(frames: Frames): set<object> {
    (set p | p in frames :: frames[p] as object) + (set p | p in frames :: frames[p].data as object)
  }

  /** A page in use, whole, under its own number. */
  ghost predicate Shows(frame: Page, p: PageId, dir: seq<Slot>)
    reads frame, frame.data
  {
    frame.Valid() && frame.pageNumber == p && frame.Slots() == dir
  }

  /** Every listed page is cached. */
  ghost predicate Caches(frames: Frames, dirs: Directories, list: seq<PageId>)
    reads FrameObjects(frames)
  {
    forall i :: 0 <= i < |list| ==>
      list[i] in frames && list[i] in dirs && Shows(frames[list[i]], list[i], dirs[list[i]])
  }

  ghost predicate Listed(dirs: Directories, list: seq<PageId>) {
    forall i :: 0 <= i < |list| ==> list[i] in dirs
  }

  /** The records of one page past slot s, in slot order. */
  ghost function RidsAfter(p: PageId, dir: seq<Slot>, s: SlotId): seq<RecordId>
    decreases |dir| - s
  {
    if s >= |dir| then []
    else if dir[s].used then [RecordId(p, s + 1)] + RidsAfter(p, dir, s + 1)
    else RidsAfter(p, dir, s + 1)
  }

  /** The records of the listed pages from the i-th on, in page order. */
  ghost function Rids(dirs: Directories, list: seq<PageId>, i: nat): seq<RecordId>
    requires Listed(dirs, list)
    decreases |list| - i
  {
    if i >= |list| then [] else RidsAfter(list[i], dirs[list[i]], 0) + Rids(dirs, list, i + 1)
  }

  /** The records from the one in slot s on; slot 0 is the end of the page. */
  ghost function RidsFrom(p: PageId, dir: seq<Slot>, s: SlotId): seq<RecordId> {
    if s == INVALID_SLOT then [] else [RecordId(p, s)] + RidsAfter(p, dir, s)
  }

  ghost predicate Before(a: RecordId, b: RecordId) {
    a.pageNumber < b.pageNumber || (a.pageNumber == b.pageNumber && a.slotNumber < b.slotNumber)
  }

  ghost predicate Increasing(rids: seq<RecordId>) {
    forall x, y :: 0 <= x < y < |rids| ==> Before(rids[x], rids[y])
  }

  ghost predicate InUse(dirs: Directories, p: PageId, s: SlotId) {
    p in dirs && 1 <= s <= |dirs[p]| && dirs[p][s - 1].used
  }

  lemma {:induction false} RidsAfterExact(p: PageId, dir: seq<Slot>, s: SlotId, rid: RecordId)
    ensures rid in RidsAfter(p, dir, s)
      <==> rid.pageNumber == p && s < rid.slotNumber <= |dir| && dir[rid.slotNumber - 1].used
    decreases |dir| - s
  {
    if s < |dir| {
      RidsAfterExact(p, dir, s + 1, rid);
    }
  }

  lemma {:induction false} RidsAfterIncreasing(p: PageId, dir: seq<Slot>, s: SlotId)
    ensures Increasing(RidsAfter(p, dir, s))
    decreases |dir| - s
  {
    if s < |dir| {
      RidsAfterIncreasing(p, dir, s + 1);
      var rest := RidsAfter(p, dir, s + 1);
      forall y | 0 <= y < |rest| ensures Before(RecordId(p, s + 1), rest[y]) {
        RidsAfterExact(p, dir, s + 1, rest[y]);
      }
    }
  }

  /** Exactly the used slots of the listed pages. */
  lemma {:induction false} RidsExact(dirs: Directories, list: seq<PageId>, i: nat, rid: RecordId)
    requires Listed(dirs, list) && Ascending(list) && i <= |list|
    ensures rid in Rids(dirs, list, i) <==> rid.pageNumber in list[i..] && InUse(dirs, rid.pageNumber, rid.slotNumber)
    decreases |list| - i
  {
    if i < |list| {
      RidsExact(dirs, list, i + 1, rid);
      RidsAfterExact(list[i], dirs[list[i]], 0, rid);
      assert list[i..] == [list[i]] + list[i + 1..];
    }
  }

  /** Each once, in (page, slot) order. */
  lemma {:induction false} RidsIncreasing(dirs: Directories, list: seq<PageId>, i: nat)
    requires Listed(dirs, list) && Ascending(list) && i <= |list|
    ensures Increasing(Rids(dirs, list, i))
    decreases |list| - i
  {
    if i < |list| {
      var here, rest := RidsAfter(list[i], dirs[list[i]], 0), Rids(dirs, list, i + 1);
      RidsAfterIncreasing(list[i], dirs[list[i]], 0);
      RidsIncreasing(dirs, list, i + 1);
      forall x, y | 0 <= x < |here| && 0 <= y < |rest| ensures Before(here[x], rest[y]) {
        RidsAfterExact(list[i], dirs[list[i]], 0, here[x]);
        RidsExact(dirs, list, i + 1, rest[y]);
      }
    }
  }

  /** The next used slot after `start`, or INVALID_SLOT. */
  method GetNextUsedSlot(page: Page, start: SlotId) returns (slotNumber: SlotId)
    requires page.Valid()
    ensures slotNumber == INVALID_SLOT || (start < slotNumber <= page.numSlots && page.Slots()[slotNumber - 1].used)
    ensures RidsAfter(page.pageNumber, page.Slots(), start) == RidsFrom(page.pageNumber, page.Slots(), slotNumber)
  {
    hide Tiled, FreeCount, SlotAt, Trimmed;
    slotNumber := INVALID_SLOT;
    var i := start + 1;
    while i <= page.numSlots
      invariant start < i
      invariant RidsAfter(page.pageNumber, page.Slots(), start) == RidsAfter(page.pageNumber, page.Slots(), i - 1)
    {
      var slot := page.GetSlot(i - 1);
      if slot.used {
        return i;
      }
      i := i + 1;
    }
  }

  datatype ScanOutcome = Found(rid: RecordId) | EndOfFile

  class FileScan {
    const file: PageFile
    const frames: Frames
    ghost const dirs: Directories
    ghost const used: seq<PageId>
    var filePageIter: PageId
    var curPage: Page?
    var curSlot: SlotId
    var curDirtyFlag: bool
    /** Pages this scan holds pinned. */
    var pins: multiset<PageId>
    /** Where filePageIter stands in the used list. */
    ghost var at: nat

    /** The file the scan runs over, which stays as it is meanwhile. */
    ghost predicate Stable()
      reads file, FrameObjects(frames)
    {
      && (this as object) !in FrameObjects(frames)
      && file.Valid() && file.used == used && Caches(frames, dirs, used) && Listed(dirs, used)
    }

    /** Between two calls: before the first record, on a record, or past the last. */
    ghost predicate Valid()
      reads this, file, FrameObjects(frames)
    {
      Stable() && (Idle() || (Holding() && curSlot != INVALID_SLOT))
    }

    ghost predicate Idle()
      reads this
    {
      && curPage == null && pins == multiset{} && (at == 0 || at == |used|)
      && filePageIter == if at < |used| then used[at] else INVALID_NUMBER
    }

    /** On a page, at one of its records or at its end. */
    ghost predicate Holding()
      reads this
    {
      && Listed(dirs, used) && at < |used| && filePageIter == used[at] && filePageIter in frames
      && curPage == frames[filePageIter] && pins == multiset{filePageIter}
      && (curSlot != INVALID_SLOT ==> curSlot <= |dirs[filePageIter]| && dirs[filePageIter][curSlot - 1].used)
    }

    /** The record ids still to come. */
    ghost function Pending(): seq<RecordId>
      requires Listed(dirs, used) && (Idle() || Holding())
      reads this
    {
      if curPage == null then if at == 0 then Rids(dirs, used, 0) else []
      else RidsAfter(filePageIter, dirs[filePageIter], curSlot) + Rids(dirs, used, at + 1)
    }

    /** The record the scan stands on and those after it. */
    ghost function Coming(): seq<RecordId>
      requires Holding()
      reads this
    {
      RidsFrom(filePageIter, dirs[filePageIter], curSlot) + Rids(dirs, used, at + 1)
    }

    constructor (file: PageFile, frames: Frames, ghost dirs: Directories)
      requires file.Valid() && Caches(frames, dirs, file.used)
      ensures Valid() && this.file == file && this.frames == frames && pins == multiset{}
      ensures this.dirs == dirs && this.used == file.used && Pending() == Rids(dirs, used, 0)
    {
      hide Threaded, Rids, Shows;
      this.file, this.frames, this.dirs, this.used := file, frames, dirs, file.used;
      filePageIter, curPage, curSlot, curDirtyFlag := file.header.firstUsedPage, null, INVALID_SLOT, false;
      pins, at := multiset{}, 0;
      new;
      FirstListed();
    }

    lemma FirstListed()
      requires file.Valid() && file.used == used && at == 0
      ensures file.header.firstUsedPage == if at < |used| then used[at] else INVALID_NUMBER
    {
    }

    /** The i-th used page: its header, its frame, and the records from it on. */
    lemma PageAt(i: nat)
      requires Stable() && i <= |used|
      ensures (this as object) !in FrameObjects(frames) && Listed(dirs, used)
      ensures file.header.firstUsedPage == HeadOf(used)
      ensures i < |used| ==>
        && used[i] != INVALID_NUMBER && used[i] in file.pages && file.pages[used[i]].next == NextIn(used, i)
        && used[i] in frames && used[i] in dirs && Shows(frames[used[i]], used[i], dirs[used[i]])
        && Rids(dirs, used, i) == RidsAfter(used[i], dirs[used[i]], 0) + Rids(dirs, used, i + 1)
      ensures i == |used| ==> Rids(dirs, used, i) == []
      ensures i + 1 < |used| ==> used[i + 1] != INVALID_NUMBER
    {
      if i < |used| {
        SuccessorIs(file.header, file.pages, used, file.free, i);
        LinkAt(file.pages, used, i);
      }
    }

    /** A record in hand is the first of those coming. */
    lemma InHand()
      requires Holding()
      ensures curSlot != INVALID_SLOT ==>
        Coming() != [] && Coming()[0] == RecordId(filePageIter, curSlot) && Coming()[1..] == Pending()
      ensures curSlot == INVALID_SLOT ==> Coming() == Rids(dirs, used, at + 1)
    {
    }

    /** readPage on a page in use; the scan never holds two. */
    method ReadPage(p: PageId)
      requires p in frames && pins == multiset{}
      modifies this`curPage, this`pins
      ensures curPage == frames[p] && pins == multiset{p}
    {
      curPage := frames[p];
      pins := pins + multiset{p};
    }

    /** unPinPage with the scan's dirty flag, then forget the page. */
    method UnPinPage(p: PageId)
      requires pins == multiset{p}
      modifies this`curPage, this`pins, this`curDirtyFlag
      ensures curPage == null && pins == multiset{} && !curDirtyFlag
    {
      pins := pins - multiset{p};
      curPage := null;
      curDirtyFlag := false;
    }

    /** Reads the page the scan has come to and moves to its first record. */
    method OpenPage()
      requires Stable() && at < |used| && filePageIter == used[at] && pins == multiset{}
      modifies this`curPage, this`pins, this`curSlot
      ensures Stable() && Holding() && Coming() == Rids(dirs, used, at)
    {
      hide Threaded, Rids, RidsAfter, RidsFrom, Stable, Laid, Trimmed, SlotAt;
      PageAt(at);
      ReadPage(filePageIter);
      curSlot := GetNextUsedSlot(curPage, INVALID_SLOT);
    }

    /** The next record of the page. */
    method NextSlot()
      requires Stable() && Holding()
      modifies this`curSlot
      ensures Stable() && Holding() && Coming() == old(Pending())
    {
      hide Threaded, Rids, RidsAfter, RidsFrom, Stable, Laid, Trimmed, SlotAt;
      PageAt(at);
      curSlot := GetNextUsedSlot(curPage, curSlot);
    }

    /** Leaves a finished page for the next one. */
    method LeavePage()
      requires Stable() && Holding() && curSlot == INVALID_SLOT
      modifies this`curPage, this`pins, this`curDirtyFlag, this`filePageIter, this`at
      ensures Stable() && at == old(at) + 1 <= |used| && filePageIter == NextIn(used, at - 1)
      ensures curPage == null && pins == multiset{} && old(Coming()) == Rids(dirs, used, at)
      ensures filePageIter == INVALID_NUMBER <==> at == |used|
    {
      hide Threaded, Rids, RidsAfter, Stable, Laid, Trimmed, SlotAt;
      PageAt(at);
      PageAt(at + 1);
      UnPinPage(filePageIter);
      filePageIter, at := file.pages[filePageIter].next, at + 1;
    }

    /** Steps over pages without further records (lines 76-95). */
    method SkipPages()
      requires Stable() && Holding()
      modifies this`curPage, this`pins, this`curDirtyFlag, this`filePageIter, this`at, this`curSlot
      ensures Valid()
      ensures old(Coming()) == [] ==> Idle() && at == |used|
      ensures old(Coming()) != [] ==> Holding() && Coming() == old(Coming())
    {
      hide Threaded, Rids, RidsAfter, Stable, Laid, Trimmed, SlotAt;
      PageAt(at);
      while curSlot == INVALID_SLOT
        invariant Stable() && Holding() && old(Coming()) == Coming()
        decreases |used| - at
      {
        LeavePage();
        if filePageIter == INVALID_NUMBER {
          PageAt(at);
          return;
        }
        OpenPage();
      }
    }

    /** The next record in (page, slot) order; EndOfFile for ever once there is none. */
    method ScanNext() returns (o: ScanOutcome)
      requires Valid()
      modifies this
      ensures Valid()
      ensures old(Pending()) == [] ==> o == EndOfFile && Pending() == [] && pins == multiset{}
      ensures old(Pending()) != [] ==> o == Found(old(Pending())[0]) && Pending() == old(Pending())[1..]
      ensures o.Found? ==> pins == multiset{o.rid.pageNumber} && o.rid == RecordId(filePageIter, curSlot)
    {
      hide Threaded, Rids, RidsAfter, RidsFrom, Coming, Stable, Laid, Trimmed, SlotAt;
      PageAt(at);
      if filePageIter == INVALID_NUMBER {
        return EndOfFile;
      }
      ghost var pending := Pending();
      if curPage == null {
        filePageIter := file.header.firstUsedPage;
        curDirtyFlag := false;
        OpenPage();
        InHand();
        if curSlot != INVALID_SLOT {
          return Found(RecordId(filePageIter, curSlot));
        }
        FromEnd();
      }
      assert Pending() == pending;
      NextSlot();
      SkipPages();
      if curPage == null {
        return EndOfFile;
      }
      InHand();
      o := Found(RecordId(filePageIter, curSlot));
    }

    /** At the end of a page, the iterator would start over; only an empty page is left so. */
    lemma FromEnd()
      requires Holding() && curSlot == INVALID_SLOT && Coming() == Rids(dirs, used, at)
      ensures Pending() == Coming()
    {
    }

    /** The bytes of the record the scan stands on. */
    method GetRecord() returns (record: seq<Byte>)
      requires Valid() && curPage != null
      ensures curPage.pageNumber == filePageIter && curSlot in curPage.Records() && record == curPage.Records()[curSlot]
    {
      hide Threaded, Tiled, FreeCount, Trimmed, SlotAt, FrameObjects;
      PageAt(at);
      var read := curPage.GetRecord(RecordId(filePageIter, curSlot));
      assert Holds(curPage.Slots(), curPage.data[..], curSlot) by {
        SlotHeld(curPage.data[..], curPage.lower, curPage.upper, curPage.numSlots, curPage.numFreeSlots, curSlot);
      }
      record := read.bytes;
    }

    /** A whole scan: every record once, then EndOfFile with nothing pinned. */
    method Drain() returns (rids: seq<RecordId>)
      requires Valid()
      modifies this
      ensures Valid() && rids == old(Pending()) && Pending() == [] && pins == multiset{}
    {
      hide Stable, Rids, RidsAfter, Idle, Holding, Pending, Listed;
      PageAt(0);
      ghost var left := Pending();
      rids := [];
      var o := ScanNext();
      while o.Found?
        invariant Valid() && old(Pending()) == rids + left
        invariant o.Found? ==> left != [] && left[0] == o.rid && Pending() == left[1..]
        invariant !o.Found? ==> left == [] && Pending() == [] && pins == multiset{}
        decreases |left|
      {
        rids := rids + [o.rid];
        left := left[1..];
        o := ScanNext();
      }
    }
  }
}
