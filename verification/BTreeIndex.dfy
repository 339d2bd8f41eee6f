/** The index itself: insertion over pages held in the buffer pool
    (p3/src/btree.cpp). The ghost tree says what the pages mean. */
module BTreeIndexing {
  import opened Storage
  import opened BTreeSpec
  import opened BTreePages
  import opened BTreeRep
  import opened BTreeChain
  import opened BTreeScanSpec

  /** The index file behind the buffer manager, as one user of it sees it. A page's content
      is its frame's. `unsaved` are the pages written to since somebody last let go of
      them dirty: evicting one of those would lose the write, so the last client to let go
      of it must say dirty. */
  class BufferedFile {
    const c: Capacity
    var pages: PageMap
    var numPages: PageId
    var pins: multiset<PageId>
    ghost var unsaved: set<PageId>

    /** A new file holding nothing but its header. */
    constructor (c: Capacity)
      ensures this.c == c && pages == map[] && numPages == 1 && pins == multiset{} && unsaved == {}
    {
      this.c := c;
      pages, numPages, pins, unsaved := map[], 1, multiset{}, {};
    }

    /** Every page in use has a number below the end of the file, and no write is at risk. */
    ghost predicate Valid()
      reads this
    {
      && c.Valid() && INVALID_NUMBER < numPages && (forall p :: p in pages ==> INVALID_NUMBER < p < numPages)
      && forall p :: p in unsaved ==> p in pins
    }

    method ReadLeaf(p: PageId) returns (node: LeafNode)
      requires Valid() && p in pages && pages[p].LeafImage?
      modifies this`pins
      ensures Valid() && pins == old(pins) + multiset{p}
      ensures fresh(node.Objects) && node.Img() == pages[p]
    {
      pins := pins + multiset{p};
      node := new LeafNode.FromImage(pages[p]);
    }

    method ReadInner(p: PageId) returns (node: NonLeafNode)
      requires Valid() && p in pages && pages[p].InnerImage?
      modifies this`pins
      ensures Valid() && pins == old(pins) + multiset{p}
      ensures fresh(node.Objects) && node.keyArray as object != node.pageNoArray as object && node.Img() == pages[p]
    {
      pins := pins + multiset{p};
      node := new NonLeafNode.FromImage(pages[p]);
    }

    /** Pins a page and shows its contents. */
    method ReadPage(p: PageId) returns (img: Image)
      requires Valid() && p in pages
      modifies this`pins
      ensures Valid() && pins == old(pins) + multiset{p} && img == pages[p]
    {
      pins := pins + multiset{p};
      img := pages[p];
    }

    /** allocPage: the number of a new page, pinned. */
    method AllocPage() returns (newPageId: PageId)
      requires Valid()
      modifies this`numPages, this`pins
      ensures Valid() && newPageId == old(numPages) && numPages == newPageId + 1
      ensures pins == old(pins) + multiset{newPageId}
    {
      newPageId := numPages;
      numPages := numPages + 1;
      pins := pins + multiset{newPageId};
    }

    /** A write through a pinned page. */
    method Store(p: PageId, img: Image)
      requires p in pins && Valid() && INVALID_NUMBER < p < numPages
      modifies this`pages, this`unsaved
      ensures Valid() && pages == old(pages)[p := img] && unsaved == old(unsaved) + {p}
    {
      pages, unsaved := pages[p := img], unsaved + {p};
    }

    /** A clean unpin. Nobody may be the last to let go of an unsaved page that way. */
    method UnPinClean(p: PageId)
      requires Valid() && p in pins && (p in unsaved ==> pins[p] > 1)
      modifies this`pins
      ensures Valid() && pins == old(pins) - multiset{p}
    {
      pins := pins - multiset{p};
    }

    /** A dirty unpin of a page written through its frame. */
    method UnPinStored(p: PageId)
      requires Valid() && p in pins
      modifies this`pins, this`unsaved
      ensures Valid() && pins == old(pins) - multiset{p} && unsaved == old(unsaved) - {p}
    {
      pins, unsaved := pins - multiset{p}, unsaved - {p};
    }

    /** The end of some work on a pinned page: its contents, then a dirty unpin. */
    method UnPinDirty(p: PageId, img: Image)
      requires p in pins && Valid() && INVALID_NUMBER < p < numPages
      modifies this`pages, this`pins, this`unsaved
      ensures Valid() && unsaved == old(unsaved) - {p}
      ensures pages == old(pages)[p := img] && pins == old(pins) - multiset{p}
    {
      Store(p, img);
      UnPinStored(p);
      assert unsaved == old(unsaved) - {p};
    }
  }

  datatype StartOutcome = ScanStarted | BadOpcodes | BadScanrange | NoSuchKeyFound | PageZero

  datatype NextOutcome = Next(rid: RecordId) | IndexScanCompleted | ScanNotInitialized

  /** The page taken at the slot where the search over an inner page stops. */
  function TakenAt(img: Image, low: int, entryId: nat): PageId
    requires img.InnerImage? && entryId < |img.keys| && entryId + 1 < |img.kids|
  {
    var at := if img.keys[entryId] > low then entryId else entryId + 1;
    if img.kids[at] == INVALID_NUMBER then img.kids[entryId] else img.kids[at]
  }

  lemma ChildChosen(img: Image, low: int, ks: seq<int>, ps: seq<PageId>, c: Capacity, root: bool, entryId: nat)
    requires c.Valid() && img.InnerImage? && InnerHolds(img, img.level, ks, ps, c, root) && ks != [] && low <= INT_MAX
    requires forall i :: 0 <= i < |ks| - 1 ==> ks[i] < ks[i + 1]
    requires entryId < c.node && (img.keys[entryId] >= low || entryId == c.node - 1)
    requires forall i :: 0 <= i < entryId ==> img.keys[i] < low
    ensures TakenAt(img, low, entryId) == if LosesWay(ks, low, c, root) then INVALID_NUMBER else ps[UpperIndex(ks, low)]
  {
    hide UpperIndex;
    var pos := UpperIndex(ks, low);
    if entryId < |ks| {
      // stopped at a key, or at the last slot
      assert forall i :: 0 <= i <= entryId ==> ks[i] == img.keys[i];
      assert pos >= entryId;
      assert ks[entryId] <= low && entryId + 1 < |ks| ==> low < ks[entryId + 1];
      assert pos == if ks[entryId] > low then entryId else entryId + 1;
    } else if root && |ks| == 1 {
      // past the one key of a fresh root
      assert pos == 1 && img.keys[0] == ks[0] < low;
    } else {
      // stopped at the sentinel
      assert entryId == |ks| == pos;
    }
  }

  lemma ChildPageValid(img: Image, level: int, ks: seq<int>, ps: seq<PageId>, c: Capacity, root: bool, pos: nat)
    requires InnerHolds(img, level, ks, ps, c, root) && pos < |ps|
    ensures ps[pos] != INVALID_NUMBER
  {}

  lemma OnTheWayFromRoot(pm: PageMap, next: PageId, t: Tree, h: nat, c: Capacity, header: PageId, low: int)
    requires Holds(pm, next, t, h, c, header) && StrictlySorted(InOrder(t))
    ensures OnTheWay(pm, t, INVALID_NUMBER, h, c, true, low, ReachOf(t, low).pid)
  {}

  /** What an inner page on the way says about the child the descent takes. */
  lemma ChildAhead(pm: PageMap, t: Tree, after: PageId, h: nat, c: Capacity, root: bool, low: int, target: PageId)
    requires OnTheWay(pm, t, after, h, c, root, low, target) && t.InnerT? && c.Valid()
    ensures t.pid in pm && pm[t.pid].InnerImage? && t.keys != [] && |t.kids| == |t.keys| + 1 && h >= 2
    ensures pm[t.pid].level == LevelOf(h) && InnerHolds(pm[t.pid], LevelOf(h), t.keys, Pids(t.kids), c, root)
    ensures forall i :: 0 <= i < |t.keys| - 1 ==> t.keys[i] < t.keys[i + 1]
    ensures var kid := t.kids[UpperIndex(t.keys, low)];
      && OnTheWay(pm, kid, AfterOf(t.kids, UpperIndex(t.keys, low), after), h - 1, c, false, low, target)
      && kid.pid in pm && kid.pid != INVALID_NUMBER && Pids(t.kids)[UpperIndex(t.keys, low)] == kid.pid
      && (kid.LeafT? <==> LevelOf(h) == 1)
  {
    hide OnTheWay, InOrder, ReachOf;
    var pos := UpperIndex(t.keys, low);
    InnerOnTheWay(pm, t, after, h, c, root, low, target);
    ChildPageValid(pm[t.pid], LevelOf(h), t.keys, Pids(t.kids), c, root, pos);
    StepDown(pm, t, after, h, c, root, low, target);
    InnerOnTheWay(pm, t.kids[pos], AfterOf(t.kids, pos, after), h - 1, c, false, low, target);
  }

  lemma DonePending(ahead: seq<seq<Entry>>, q: Query)
    ensures PendingOf(ahead, -1, q) == []
  {}

  datatype Verdict = Found(i: nat) | Beyond | Exhausted

  /** What the loop over the leaf settles about the whole start. */
  lemma Settled(es: seq<Entry>, later: seq<seq<Entry>>, q: Query, full: bool, v: Verdict)
    requires var rest := Flatten(later);
      match v
      case Found(i) => i < |es| && StartIn(es, rest, q, full) == Started([es[i]] + TakeBelow(es[i + 1..] + rest, q))
      case Beyond => StartIn(es, rest, q, full) == NoSuchKey
      case Exhausted =>
        StartIn(es, rest, q, full) == if rest == [] then NoSuchKey else Started([rest[0]] + TakeBelow(rest[1..], q))
    ensures var start := StartIn(es, Flatten(later), q, full);
      match v
      case Exhausted =>
        && (start.Started? <==> Flatten(later) != [])
        && Answer(start) == if Flatten(later) == [] then [] else [Flatten(later)[0]] + TakeBelow(Flatten(later)[1..], q)
      case _ =>
        && (start.Started? <==> v.Found?)
        && PendingOf([es] + later, if v.Found? then v.i else -1, q) == Answer(start)
  {
    hide StartIn, TakeBelow, Flatten;
    DonePending([es] + later, q);
    if v.Found? {
      ScanFromEntry(es, later, v.i, q);
    }
  }

  class BTreeIndex {
    const file: BufferedFile
    const headerPageNum: PageId
    var rootPageNum: PageId
    // the scan
    var scanExecuting: bool
    var nextEntry: int
    var currentPageNum: PageId
    var currentPageData: Image
    var query: Query
    // what the pages mean
    ghost var tree: Tree
    ghost var height: nat
    ghost var ahead: seq<seq<Entry>>

    /** The file holds the tree and the meta page that names its root and height. */
    ghost predicate Valid()
      reads this, file
    {
      file.Valid() && Holds(file.pages, file.numPages, tree, height, file.c, headerPageNum) && tree.pid == rootPageNum
    }

    /** The entries of the index, in key order. */
    ghost function Contents(): seq<Entry>
      reads this
    {
      InOrder(tree)
    }

    /** A new index file over the given records of the relation (lines 83-136). */
    constructor (c: Capacity, records: seq<Entry>)
      requires c.Valid() && forall i :: 0 <= i < |records| ==> records[i].rid.pageNumber != INVALID_NUMBER
      ensures Valid() && fresh(file) && file.c == c && file.pins == multiset{}
      ensures Contents() == InsertAll([], records)
      ensures !scanExecuting && ScanValid()
    {
      hide Holds;
      file := new BufferedFile(c);
      headerPageNum, rootPageNum, height := 1, 2, 1;
      scanExecuting, nextEntry, currentPageNum := false, -1, INVALID_NUMBER;
      currentPageData, query := LeafImage([], [], INVALID_NUMBER), Query(0, LT, 0, LT);
      tree, ahead := LeafT(2, []), [];
      new;
      Build(records);
    }

    /** Lays out the meta page and an empty root, loads the relation, and lets go of both
        pages dirty. */
    method Build(records: seq<Entry>)
      requires file.Valid() && file.pages == map[] && file.numPages == 1 && headerPageNum == 1
      requires file.pins == multiset{} && file.unsaved == {}
      requires rootPageNum == 2 && height == 1 && tree == LeafT(2, [])
      requires forall i :: 0 <= i < |records| ==> records[i].rid.pageNumber != INVALID_NUMBER
      modifies this`rootPageNum, this`height, this`tree, file
      ensures Valid() && file.pins == multiset{} && file.unsaved == {}
      ensures Contents() == InsertAll([], records)
    {
      hide Holds, InsertAll, InOrder;
      var metaPageId, rootPageId := CreatePages();
      Load(records);
      file.UnPinStored(metaPageId);
      assert file.pins == multiset{rootPageId};
      file.UnPinStored(rootPageId);
    }

    /** The meta page and the root of an empty index, still pinned (lines 86-111). */
    method CreatePages() returns (metaPageId: PageId, rootPageId: PageId)
      requires file.Valid() && file.pages == map[] && file.numPages == 1 && headerPageNum == 1
      requires file.pins == multiset{} && file.unsaved == {}
      requires rootPageNum == 2 && height == 1 && tree == LeafT(2, [])
      modifies file
      ensures Valid() && metaPageId == 1 && rootPageId == 2 && Contents() == []
      ensures file.pins == multiset{metaPageId, rootPageId}
    {
      hide Holds;
      metaPageId := file.AllocPage();
      rootPageId := file.AllocPage();
      file.Store(metaPageId, MetaImage(rootPageId, 1));
      WriteEmptyRoot(rootPageId);
    }

    /** The root of an empty index: a leaf holding only sentinels (lines 108-111). */
    method WriteEmptyRoot(rootPageId: PageId)
      requires file.Valid() && rootPageId in file.pins && headerPageNum < rootPageId && rootPageId + 1 == file.numPages
      requires file.pages == map[headerPageNum := MetaImage(rootPageId, 1)]
      modifies file`pages, file`unsaved
      ensures file.Valid()
      ensures Holds(file.pages, file.numPages, LeafT(rootPageId, []), 1, file.c, headerPageNum)
    {
      hide Holds;
      var rootNode := new LeafNode(file.c);
      rootNode.rightSibPageNo := INVALID_NUMBER;
      rootNode.Terminate(0, file.c, []);
      file.Store(rootPageId, rootNode.Img());
      EmptyHolds(headerPageNum, rootPageId, rootNode.Img(), file.c);
    }

    /** Inserts the records in the order the file scan yields them (lines 114-130). */
    method Load(records: seq<Entry>)
      requires Valid() && forall i :: 0 <= i < |records| ==> records[i].rid.pageNumber != INVALID_NUMBER
      modifies this`rootPageNum, this`height, this`tree, file
      ensures Valid() && file.pins == old(file.pins) && file.unsaved <= old(file.unsaved)
      ensures Contents() == InsertAll(old(Contents()), records)
    {
      hide Holds;
      for i := 0 to |records|
        invariant Valid() && file.pins == old(file.pins) && file.unsaved <= old(file.unsaved)
        invariant Contents() == InsertAll(old(Contents()), records[..i])
      {
        InsertEntry(records[i].key, records[i].rid);
        assert records[..i + 1] == records[..i] + [records[i]];
      }
      assert records[..|records|] == records;
    }

    /** Inserts one entry; a split root gets a new root above it (lines 308-340). */
    method InsertEntry(key: int, rid: RecordId)
      requires Valid() && rid.pageNumber != INVALID_NUMBER
      modifies this`rootPageNum, this`height, this`tree, file
      ensures Valid() && file.pins == old(file.pins) && file.unsaved <= old(file.unsaved)
      ensures Contents() == InsertSorted(old(Contents()), Entry(key, rid))
      ensures old(height) <= height <= old(height) + 1
    {
      hide Holds, Laid, Inserted, InOrder, InsertRoot, InsertSorted;
      ghost var pm, next := file.pages, file.numPages;
      HoldsRoot(pm, next, tree, height, file.c, headerPageNum);
      var metaInfo := file.ReadPage(headerPageNum);
      var isLeaf := metaInfo.height == 1;
      var e := Entry(key, rid);
      var newChild := InsertUnderNode(e, rootPageNum, isLeaf, tree, INVALID_NUMBER, height, true);
      if newChild.pageNo == INVALID_NUMBER {
        RootWhole(pm, next, file.pages, file.numPages, newChild, tree, e, height, file.c, headerPageNum);
        tree := InsertRoot(tree, e, next, height, file.c).0;
        file.UnPinClean(headerPageNum);
      } else {
        GrowRoot(e, newChild, isLeaf, metaInfo, pm, next);
      }
    }

    /** The case of a split root: the meta page names the new one and is unpinned dirty. */
    method GrowRoot(e: Entry, newChild: PageKeyPair, isLeaf: bool, metaInfo: Image, ghost pm: PageMap,
                    ghost next: PageId)
      requires file.Valid() && newChild.pageNo != INVALID_NUMBER && (isLeaf <==> height == 1)
      requires Holds(pm, next, tree, height, file.c, headerPageNum) && tree.pid == rootPageNum
      requires metaInfo == MetaImage(rootPageNum, height) && headerPageNum in file.pins
      requires Inserted(pm, next, file.pages, file.numPages, newChild, tree, e, INVALID_NUMBER, height, file.c, true)
      modifies this`rootPageNum, this`height, this`tree, file
      ensures Valid() && file.pins == old(file.pins) - multiset{headerPageNum} && file.unsaved <= old(file.unsaved)
      ensures height == old(height) + 1 && Contents() == InsertSorted(old(Contents()), e)
    {
      hide Holds, Inserted, InOrder, InnerHolds, Laid;
      ghost var pm1, next1 := file.pages, file.numPages;
      HoldsRoot(pm, next, tree, height, file.c, headerPageNum);
      InsertedGrew(pm, next, pm1, next1, newChild, tree, e, INVALID_NUMBER, height, file.c, true);
      var img := NewRoot(newChild, isLeaf, metaInfo.height);
      RootHalves(pm, next, pm1, next1, newChild, tree, e, height, file.c, headerPageNum, img);
      tree := InsertRoot(tree, e, next, height, file.c).0;
      height := height + 1;
    }

    lemma TwoUnpins(pins: multiset<PageId>, p: PageId, q: PageId)
      requires q in pins
      ensures p in pins + multiset{p} - multiset{q}
      ensures pins + multiset{p} - multiset{q} - multiset{p} == pins - multiset{q}
    {
    }

    /** Puts a new root over the old one and the page that split off (lines 326-338). */
    method NewRoot(newChild: PageKeyPair, isLeaf: bool, oldHeight: nat) returns (img: Image)
      requires file.Valid() && rootPageNum != INVALID_NUMBER && newChild.pageNo != INVALID_NUMBER
      requires headerPageNum in file.pins && INVALID_NUMBER < headerPageNum < file.numPages
      modifies this`rootPageNum, file
      ensures file.Valid() && file.pins == old(file.pins) - multiset{headerPageNum} && file.unsaved <= old(file.unsaved)
      ensures rootPageNum == old(file.numPages) && file.numPages == rootPageNum + 1
      ensures file.pages == Rerooted(old(file.pages), headerPageNum, rootPageNum, img, oldHeight + 1)
      ensures InnerHolds(img, if isLeaf then 1 else 0, [newChild.key], [old(rootPageNum), newChild.pageNo],
                         file.c, true)
    {
      hide InnerHolds;
      ghost var pins := file.pins;
      var newRootPageId := file.AllocPage();
      img := FillRoot(newChild, isLeaf);
      rootPageNum := newRootPageId;
      file.UnPinDirty(headerPageNum, MetaImage(newRootPageId, oldHeight + 1));
      file.UnPinDirty(newRootPageId, img);
      TwoUnpins(pins, newRootPageId, headerPageNum);
    }

    /** The contents of the new root (lines 327-333). */
    method FillRoot(newChild: PageKeyPair, isLeaf: bool) returns (img: Image)
      requires file.c.Valid() && rootPageNum != INVALID_NUMBER && newChild.pageNo != INVALID_NUMBER
      ensures InnerHolds(img, if isLeaf then 1 else 0, [newChild.key], [rootPageNum, newChild.pageNo], file.c, true)
    {
      hide InnerHolds;
      var newRootNode := new NonLeafNode(file.c);
      newRootNode.StartRoot(rootPageNum, newChild.key, newChild.pageNo, isLeaf, file.c);
      img := newRootNode.Img();
    }

    /** The subtree t under curPageId takes e in; a split is announced to the caller. */
    method InsertUnderNode(e: Entry, curPageId: PageId, isLeaf: bool,
                           ghost t: Tree, ghost after: PageId, ghost h: nat, ghost root: bool)
      returns (newChild: PageKeyPair)
      requires Laid(file.pages, file.numPages, t, after, h, file.c, root)
      requires file.Valid() && e.rid.pageNumber != INVALID_NUMBER && t.pid == curPageId && (isLeaf <==> t.LeafT?)
      modifies file
      ensures file.Valid() && file.pins == old(file.pins) && file.unsaved <= old(file.unsaved)
      ensures Inserted(old(file.pages), old(file.numPages), file.pages, file.numPages, newChild,
                       t, e, after, h, file.c, root)
      decreases t, 2
    {
      if isLeaf {
        newChild := InsertInLeaf(e, curPageId, t.entries, after, root);
      } else {
        newChild := InsertInInner(e, curPageId, t, after, h, root);
      }
    }

    /** insertUnderNode on an inner node (lines 230-302). */
    method InsertInInner(e: Entry, curPageId: PageId, ghost t: Tree, ghost after: PageId, ghost h: nat,
                         ghost root: bool)
      returns (newChild: PageKeyPair)
      requires Laid(file.pages, file.numPages, t, after, h, file.c, root)
      requires file.Valid() && e.rid.pageNumber != INVALID_NUMBER && t.InnerT? && t.pid == curPageId
      modifies file
      ensures file.Valid() && file.pins == old(file.pins) && file.unsaved <= old(file.unsaved)
      ensures Inserted(old(file.pages), old(file.numPages), file.pages, file.numPages, newChild,
                       t, e, after, h, file.c, root)
      decreases t, 1
    {
      hide Laid, Inserted, ChildInserted, Stored;
      ghost var pm, next := file.pages, file.numPages;
      ghost var pos := UpperIndex(t.keys, e.key);
      ChildLaid(pm, next, t, pos, after, h, file.c, root);
      var curNode := file.ReadInner(curPageId);
      var at, up := GoDown(e, curNode, t, after, h, root);
      ghost var pm1, next1 := file.pages, file.numPages;
      if up.pageNo == INVALID_NUMBER {
        FinishWhole(pm, next, pm1, next1, up, t, pos, e, after, h, file.c, root);
        file.UnPinClean(curPageId);
        return up;
      }
      newChild := AbsorbSplit(up, at, curPageId, curNode, t.keys, Pids(t.kids), root);
      FinishHalves(pm, next, pm1, next1, up, file.pages, file.numPages, newChild, t, pos, e, after, h, file.c, root);
    }

    /** Picks the child for e and inserts there (lines 236-246). */
    method GoDown(e: Entry, curNode: NonLeafNode, ghost t: Tree, ghost after: PageId, ghost h: nat, ghost root: bool)
      returns (pos: nat, up: PageKeyPair)
      requires Laid(file.pages, file.numPages, t, after, h, file.c, root) && t.InnerT? && h >= 2
      requires file.Valid() && e.rid.pageNumber != INVALID_NUMBER
      requires curNode.level == LevelOf(h) && InnerHolds(curNode.Img(), LevelOf(h), t.keys, Pids(t.kids), file.c, root)
      modifies file
      ensures file.Valid() && file.pins == old(file.pins) && file.unsaved <= old(file.unsaved)
      ensures pos == UpperIndex(t.keys, e.key) && t.pid in file.pages
      ensures ChildInserted(old(file.pages), old(file.numPages), file.pages, file.numPages, up,
                            t, pos, e, after, h, file.c, root)
      decreases t, 0
    {
      hide Laid, Inserted, ChildInserted;
      ghost var pm, next := file.pages, file.numPages;
      pos := curNode.FindChild(e.key, file.c, t.keys, Pids(t.kids), root);
      ChildLaid(pm, next, t, pos, after, h, file.c, root);
      var childPageId := curNode.pageNoArray[pos];
      assert childPageId == t.kids[pos].pid by { assert curNode.pageNoArray[..][pos] == Pids(t.kids)[pos]; }
      up := InsertUnderNode(e, childPageId, curNode.level != 0, t.kids[pos], AfterOf(t.kids, pos, after), h - 1, false);
      ChildInsertedIntro(pm, next, file.pages, file.numPages, up, t, pos, e, after, h, file.c, root);
    }

    /** insertUnderNode on a leaf (lines 160-227). */
    method InsertInLeaf(e: Entry, curPageId: PageId, ghost es: seq<Entry>, ghost after: PageId, ghost root: bool)
      returns (newChild: PageKeyPair)
      requires Laid(file.pages, file.numPages, LeafT(curPageId, es), after, 1, file.c, root)
      requires file.Valid() && e.rid.pageNumber != INVALID_NUMBER
      modifies file
      ensures file.Valid() && file.pins == old(file.pins) && file.unsaved <= old(file.unsaved)
      ensures Inserted(old(file.pages), old(file.numPages), file.pages, file.numPages, newChild,
                       LeafT(curPageId, es), e, after, 1, file.c, root)
    {
      hide Filled, LeafHanded, Inserted;
      var curNode := file.ReadLeaf(curPageId);
      newChild := StoreInLeaf(e, curNode, es);
      LeafDone(old(file.pages), old(file.numPages), file.pages, file.numPages, newChild, curPageId, curNode.Img(), es,
               e, after, file.c, root);
      file.UnPinDirty(curPageId, curNode.Img());
    }

    /** Finds the place, stores the entry and splits if the leaf was full. */
    method StoreInLeaf(e: Entry, curNode: LeafNode, ghost es: seq<Entry>) returns (newChild: PageKeyPair)
      requires file.Valid() && e.rid.pageNumber != INVALID_NUMBER
      requires LeafHolds(curNode.Img(), es, curNode.rightSibPageNo, file.c)
      modifies file, curNode.Objects
      ensures file.Valid() && file.pins == old(file.pins) && file.unsaved <= old(file.unsaved)
      ensures forall p :: p in old(file.pages) ==> p in file.pages && p < file.numPages
      ensures LeafHanded(old(file.pages), old(file.numPages), file.pages, file.numPages, newChild, curNode.Img(),
                         InsertSorted(es, e), old(curNode.rightSibPageNo), file.c)
    {
      var c := file.c;
      var entryNum := curNode.EntryNum(c, es);
      var pos := curNode.FindPos(e.key, c, es);
      curNode.Place(e, pos, entryNum, c, es);
      InsertSortedAt(es, e);
      ghost var es1 := InsertSorted(es, e);
      if entryNum == c.leaf {
        newChild := SplitLeaf(curNode, es1);
      } else {
        assert es1[..entryNum + 1] == es1;
        curNode.Terminate(entryNum + 1, c, es1);
        newChild := PageKeyPair(INVALID_NUMBER, e.key);
      }
    }

    /** Splits an overfull leaf into itself and a new page (lines 198-218). */
    method SplitLeaf(curNode: LeafNode, ghost es: seq<Entry>) returns (newChild: PageKeyPair)
      requires file.Valid() && |es| == file.c.leaf + 1 && Filled(curNode.keyArray[..], curNode.ridArray[..], es)
      requires curNode.keyArray.Length == curNode.ridArray.Length == file.c.leaf + 1
      modifies file, curNode.Objects
      ensures file.Valid() && file.pins == old(file.pins) && file.unsaved <= old(file.unsaved)
      ensures LeafHanded(old(file.pages), old(file.numPages), file.pages, file.numPages, newChild, curNode.Img(),
                         es, old(curNode.rightSibPageNo), file.c)
    {
      hide LeafHolds, Filled;
      var c := file.c;
      var newPageId := file.AllocPage();
      var right := new LeafNode(c);
      curNode.SplitInto(right, newPageId, c, es);
      newChild := PageKeyPair(newPageId, right.keyArray[0]);
      file.UnPinDirty(newPageId, right.Img());
    }

    /** Stores what came up and unpins the node's page dirty. */
    method AbsorbSplit(up: PageKeyPair, pos: nat, curPageId: PageId, curNode: NonLeafNode, ghost ks: seq<int>,
                       ghost ps: seq<PageId>, ghost root: bool)
      returns (newChild: PageKeyPair)
      requires file.Valid() && up.pageNo != INVALID_NUMBER && pos <= |ks|
      requires curPageId in file.pages && curPageId in file.pins
      requires InnerHolds(curNode.Img(), curNode.level, ks, ps, file.c, root) && curNode.Sized(file.c)
      modifies file, curNode.Objects
      ensures file.Valid() && file.pins == old(file.pins) - multiset{curPageId} && file.unsaved <= old(file.unsaved)
      ensures Stored(old(file.pages), old(file.numPages), file.pages, file.numPages, newChild, curPageId,
                     ks[..pos] + [up.key] + ks[pos..], ps[..pos + 1] + [up.pageNo] + ps[pos + 1..],
                     old(curNode.level), file.c)
    {
      hide Stored;
      newChild := StoreInInner(up, pos, curNode, ks, ps, root);
      PutBack(old(file.pages), old(file.numPages), file.pages, file.numPages, newChild, curPageId, curNode.Img(),
              ks[..pos] + [up.key] + ks[pos..], ps[..pos + 1] + [up.pageNo] + ps[pos + 1..],
              old(curNode.level), file.c);
      file.UnPinDirty(curPageId, curNode.Img());
    }

    /** Stores a separator and child that came up, and splits if the node was full
        (lines 254-302). */
    method StoreInInner(up: PageKeyPair, pos: nat, curNode: NonLeafNode, ghost ks: seq<int>, ghost ps: seq<PageId>,
                        ghost root: bool)
      returns (newChild: PageKeyPair)
      requires file.Valid() && up.pageNo != INVALID_NUMBER && pos <= |ks|
      requires InnerHolds(curNode.Img(), curNode.level, ks, ps, file.c, root) && curNode.Sized(file.c)
      modifies file, curNode.Objects
      ensures file.Valid() && file.pins == old(file.pins) && file.unsaved <= old(file.unsaved)
      ensures Handed(old(file.pages), old(file.numPages), file.pages, file.numPages, newChild, curNode.Img(),
                     ks[..pos] + [up.key] + ks[pos..], ps[..pos + 1] + [up.pageNo] + ps[pos + 1..],
                     old(curNode.level), file.c)
    {
      var c := file.c;
      var entryNum := curNode.EntryNum(c, ks, ps, root);
      curNode.Place(up.key, up.pageNo, pos, entryNum, c, ks, ps, root);
      ghost var ks1, ps1 := ks[..pos] + [up.key] + ks[pos..], ps[..pos + 1] + [up.pageNo] + ps[pos + 1..];
      if entryNum == c.node + 1 {
        newChild := SplitInner(curNode, ks1, ps1);
      } else {
        assert ks1[..entryNum] == ks1 && ps1[..entryNum + 1] == ps1;
        curNode.Terminate(entryNum, c, ks1, ps1);
        newChild := PageKeyPair(INVALID_NUMBER, up.key);
      }
    }

    /** Splits an overfull inner node into itself and a new page (lines 276-294). */
    method SplitInner(curNode: NonLeafNode, ghost ks: seq<int>, ghost ps: seq<PageId>) returns (newChild: PageKeyPair)
      requires file.Valid() && |ks| == file.c.node + 1 && curNode.Sized(file.c)
      requires InnerFilled(curNode.keyArray[..], curNode.pageNoArray[..], ks, ps)
      modifies file, curNode.Objects
      ensures file.Valid() && file.pins == old(file.pins) && file.unsaved <= old(file.unsaved)
      ensures Handed(old(file.pages), old(file.numPages), file.pages, file.numPages, newChild, curNode.Img(),
                     ks, ps, old(curNode.level), file.c)
    {
      hide InnerFilled, InnerHolds;
      var c := file.c;
      ghost var pins := file.pins;
      var newPageId := file.AllocPage();
      assert file.pins - multiset{newPageId} == pins;
      var right := new NonLeafNode(c);
      var newSlotKey := curNode.SplitInto(right, c, ks, ps);
      file.UnPinDirty(newPageId, right.Img());
      newChild := PageKeyPair(newPageId, newSlotKey);
    }

    // ------------------------------------------------------------------ scan

    /** The scan holds one page, the head of the chain still ahead. */
    ghost predicate ScanValid()
      reads this, file
    {
      file.unsaved == {} && (scanExecuting ==>
        && currentPageNum in file.pages && currentPageNum in file.pins
        && currentPageData == file.pages[currentPageNum]
        && ScanAt(file.pages, currentPageNum, ahead, nextEntry, file.c))
    }

    /** The entries the scan has yet to return. */
    ghost function Pending(): seq<Entry>
      reads this
    {
      PendingOf(ahead, nextEntry, query)
    }

    /** The page number the descent takes from an inner page (lines 398-419). */
    method ChooseChild(img: Image, low: int, ghost ks: seq<int>, ghost ps: seq<PageId>, ghost root: bool)
      returns (child: PageId)
      requires file.c.Valid() && img.InnerImage? && InnerHolds(img, img.level, ks, ps, file.c, root) && ks != []
      requires low <= INT_MAX
      requires forall i :: 0 <= i < |ks| - 1 ==> ks[i] < ks[i + 1]
      ensures child == if LosesWay(ks, low, file.c, root) then INVALID_NUMBER else ps[UpperIndex(ks, low)]
    {
      var nodeOccupancy := file.c.node;
      var entryId := 0;
      while img.keys[entryId] < low && entryId != nodeOccupancy - 1
        invariant 0 <= entryId < nodeOccupancy
        invariant forall i :: 0 <= i < entryId ==> img.keys[i] < low
        decreases nodeOccupancy - entryId
      {
        entryId := entryId + 1;
      }
      var childEntryId := if img.keys[entryId] > low then entryId else entryId + 1;
      child := img.kids[childEntryId];
      if child == INVALID_NUMBER {
        child := img.kids[entryId];
      }
      ChildChosen(img, low, ks, ps, file.c, root, entryId);
    }

    /** The loop of startScan over the leaf it reached (lines 448-473). */
    method FindStart(img: Image, q: Query, ghost es: seq<Entry>, ghost rest: seq<Entry>) returns (v: Verdict)
      requires img.LeafImage? && LeafHolds(img, es, img.rightSib, file.c) && q.high <= INT_MAX
      ensures v.Found? ==>
        && v.i < |es|
        && StartIn(es, rest, q, |es| == file.c.leaf) == Started([es[v.i]] + TakeBelow(es[v.i + 1..] + rest, q))
      ensures v.Beyond? ==> StartIn(es, rest, q, |es| == file.c.leaf) == NoSuchKey
      ensures v.Exhausted? && rest == [] ==> StartIn(es, rest, q, |es| == file.c.leaf) == NoSuchKey
      ensures v.Exhausted? && rest != [] ==>
        StartIn(es, rest, q, |es| == file.c.leaf) == Started([rest[0]] + TakeBelow(rest[1..], q))
    {
      ghost var full := |es| == file.c.leaf;
      for entryId := 0 to file.c.leaf
        invariant entryId <= |es|
        invariant StartIn(es, rest, q, full) == StartIn(es[entryId..], rest, q, full)
      {
        var currKey := img.keys[entryId];
        if currKey > q.high {
          return Beyond;
        }
        if img.rids[entryId].pageNumber == INVALID_NUMBER {
          break;
        }
        if Wanted(currKey, q) {
          return Found(entryId);
        }
      }
      return Exhausted;
    }

    /** startScan (lines 342-494): checks, descent, and the loop over the leaf. Bad operators
        change nothing; a bad range leaves a running scan running, but on the new bounds. */
    method StartScan(low: int, lowOp: Operator, high: int, highOp: Operator, ghost base: multiset<PageId>)
      returns (out: StartOutcome)
      requires Valid() && ScanValid() && file.pins == base + Held() && StrictlySorted(Contents())
      requires low <= INT_MAX && high <= INT_MAX
      modifies this`scanExecuting, this`nextEntry, this`currentPageNum, this`currentPageData, this`query, this`ahead
      modifies file`pins
      ensures Valid()
      ensures out == BadOpcodes <==> !((lowOp == GT || lowOp == GTE) && (highOp == LT || highOp == LTE))
      ensures out == BadScanrange <==> out != BadOpcodes && low > high
      ensures out == PageZero <==> out != BadOpcodes && low <= high && Lost(tree, file.c, low)
      ensures out == PageZero ==>
        && query == Query(low, lowOp, high, highOp) && scanExecuting && currentPageNum == INVALID_NUMBER
        && file.pins == base
      ensures out == BadOpcodes ==> unchanged(this) && Pending() == old(Pending())
      ensures out == BadScanrange ==>
        && unchanged(`scanExecuting) && unchanged(`currentPageNum) && unchanged(`currentPageData)
        && unchanged(`nextEntry) && unchanged(`ahead) && query == Query(low, lowOp, high, highOp)
      ensures out == BadOpcodes || out == BadScanrange ==> ScanValid() && file.pins == base + Held()
      ensures out == ScanStarted || out == NoSuchKeyFound ==>
        && query == Query(low, lowOp, high, highOp) && Begun(out, ScanStart(tree, file.c, query))
        && file.pins == base + Held()
    {
      hide Holds, Chain, InOrder, LosesWay, Begun;
      if lowOp != GT && lowOp != GTE {
        return BadOpcodes;
      }
      if highOp != LT && highOp != LTE {
        return BadOpcodes;
      }
      query := Query(low, lowOp, high, highOp);
      if low > high {
        return BadScanrange;
      }
      if scanExecuting {
        var _ := EndScan(base);
      }
      out := Begin(base);
    }

    /** What the scan has pending once startScan has run. */
    ghost predicate Begun(out: StartOutcome, start: Start)
      reads this, file
    {
      && scanExecuting && ScanValid() && Pending() == Answer(start)
      && out == (if start.Started? then ScanStarted else NoSuchKeyFound)
    }

    /** startScan once the arguments are accepted (lines 372-494). */
    method Begin(ghost base: multiset<PageId>) returns (out: StartOutcome)
      requires Valid() && file.unsaved == {} && !scanExecuting && StrictlySorted(Contents())
      requires query.low <= query.high <= INT_MAX && file.pins == base
      modifies this`scanExecuting, this`nextEntry, this`currentPageNum, this`currentPageData, this`ahead, file`pins
      ensures Valid() && out != BadOpcodes && out != BadScanrange
      ensures out == PageZero <==> Lost(tree, file.c, query.low)
      ensures out == PageZero ==> scanExecuting && currentPageNum == INVALID_NUMBER && file.pins == base
      ensures out != PageZero ==>
        Begun(out, ScanStart(tree, file.c, query)) && file.pins == base + multiset{currentPageNum} && scanExecuting
    {
      hide Holds, Begun, InOrder, LosesWay, ReachOf;
      var isRootLeaf := ReadHeight();
      var arrived := Descend(query.low, isRootLeaf);
      if !arrived {
        out := PageZero;
      } else {
        out := StartInLeaf(ReachOf(tree, query.low), base);
      }
    }

    /** Marks the scan as running and asks the meta page whether the root is a leaf (lines 372-379). */
    method ReadHeight() returns (isRootLeaf: bool)
      requires Valid() && file.unsaved == {}
      modifies this`scanExecuting, this`currentPageNum, file`pins
      ensures Valid() && scanExecuting && (isRootLeaf <==> height == 1) && file.pins == old(file.pins)
    {
      hide Holds;
      scanExecuting := true;
      currentPageNum := headerPageNum;
      HoldsRoot(file.pages, file.numPages, tree, height, file.c, headerPageNum);
      var metaInfo := file.ReadPage(currentPageNum);
      isRootLeaf := metaInfo.height == 1;
      file.UnPinClean(currentPageNum);
      assert file.pins == old(file.pins);
    }

    /** What the scan keeps pinned. */
    ghost function Held(): (m: multiset<PageId>)
      reads this
      ensures scanExecuting ==> m == multiset{currentPageNum}
    {
      if scanExecuting then multiset{currentPageNum} else multiset{}
    }

    /** Ends the scan and lets its page go (lines 561-570). */
    method EndScan(ghost base: multiset<PageId>) returns (ok: bool)
      requires file.Valid() && ScanValid() && file.pins == base + Held()
      modifies this`scanExecuting, file`pins
      ensures file.Valid() && ok == old(scanExecuting) && !scanExecuting && file.pins == base
    {
      if !scanExecuting {
        return false;
      }
      scanExecuting := false;
      file.UnPinClean(currentPageNum);
      return true;
    }

    /** From the root to the leaf for `low` (lines 381-444); false when it runs into page 0. */
    method Descend(low: int, isRootLeaf: bool) returns (arrived: bool)
      requires Valid() && file.unsaved == {} && StrictlySorted(Contents()) && low <= INT_MAX
      requires (isRootLeaf <==> height == 1)
      modifies this`currentPageNum, this`currentPageData, this`ahead, file`pins
      ensures Valid() && (!arrived <==> tree.InnerT? && LosesWay(tree.keys, low, file.c, true))
      ensures !arrived ==> currentPageNum == INVALID_NUMBER && file.pins == old(file.pins)
      ensures arrived ==>
        && currentPageNum == ReachOf(tree, low).pid && currentPageNum in file.pages
        && currentPageData == file.pages[currentPageNum] && file.pins == old(file.pins) + multiset{currentPageNum}
    {
      hide Holds, AtNode, ReachOf, UpperIndex, InOrder, StrictlySorted, AfterOf;
      ghost var cur, after, h, root, target := tree, INVALID_NUMBER, height, true, ReachOf(tree, low).pid;
      ghost var base := file.pins;
      EnterRoot(low, base);
      var leaf := isRootLeaf;
      while !leaf
        invariant AtNode(cur, after, h, root, low, target, base) && (leaf <==> cur.LeafT?)
        invariant if root then cur == tree else !(tree.InnerT? && LosesWay(tree.keys, low, file.c, true))
        decreases cur
      {
        leaf := StepToChild(cur, after, h, root, low, target, base);
        if currentPageNum == INVALID_NUMBER {
          return false;
        }
        ghost var pos := UpperIndex(cur.keys, low);
        cur, after, h, root := cur.kids[pos], AfterOf(cur.kids, pos, after), h - 1, false;
      }
      AtLeaf(cur, after, h, root, low, target, base);
      return true;
    }

    /** The scan starts at the root (lines 381-393). */
    method EnterRoot(low: int, ghost base: multiset<PageId>)
      requires Valid() && file.unsaved == {} && StrictlySorted(Contents()) && low <= INT_MAX && file.pins == base
      modifies this`currentPageNum, this`currentPageData, file`pins
      ensures AtNode(tree, INVALID_NUMBER, height, true, low, ReachOf(tree, low).pid, base)
      ensures (height == 1 <==> tree.LeafT?)
    {
      hide Holds, OnTheWay, Laid, InOrder, ReachOf, StrictlySorted;
      HoldsRoot(file.pages, file.numPages, tree, height, file.c, headerPageNum);
      OnTheWayFromRoot(file.pages, file.numPages, tree, height, file.c, headerPageNum, low);
      currentPageNum := rootPageNum;
      currentPageData := file.ReadPage(currentPageNum);
    }

    lemma AtLeaf(cur: Tree, after: PageId, h: nat, root: bool, low: int, target: PageId, base: multiset<PageId>)
      requires AtNode(cur, after, h, root, low, target, base) && cur.LeafT?
      ensures Valid() && currentPageNum == target && currentPageNum in file.pages
      ensures currentPageData == file.pages[currentPageNum] && file.pins == base + multiset{currentPageNum}
    {
      hide Holds;
      InnerOnTheWay(file.pages, cur, after, h, file.c, root, low, target);
    }

    /** The scan looks at the page of the subtree cur, on the way to page target. */
    ghost predicate AtNode(cur: Tree, after: PageId, h: nat, root: bool, low: int, target: PageId,
                           base: multiset<PageId>)
      reads this, file
    {
      && Valid() && file.unsaved == {} && low <= INT_MAX
      && OnTheWay(file.pages, cur, after, h, file.c, root, low, target)
      && currentPageNum == cur.pid && currentPageNum in file.pages && currentPageData == file.pages[currentPageNum]
      && file.pins == base + multiset{currentPageNum}
    }

    /** One round of the descent (lines 398-442). */
    method StepToChild(ghost cur: Tree, ghost after: PageId, ghost h: nat, ghost root: bool, low: int,
                       ghost target: PageId, ghost base: multiset<PageId>)
      returns (leaf: bool)
      requires AtNode(cur, after, h, root, low, target, base) && cur.InnerT?
      modifies this`currentPageNum, this`currentPageData, file`pins
      ensures Valid() && (currentPageNum == INVALID_NUMBER <==> LosesWay(cur.keys, low, file.c, root))
      ensures currentPageNum == INVALID_NUMBER ==> file.pins == base
      ensures currentPageNum != INVALID_NUMBER ==>
        var pos := UpperIndex(cur.keys, low);
        && pos < |cur.kids| && h >= 1
        && AtNode(cur.kids[pos], AfterOf(cur.kids, pos, after), h - 1, false, low, target, base)
        && (leaf <==> cur.kids[pos].LeafT?)
    {
      hide Holds, OnTheWay, InnerHolds, InOrder, ReachOf, Pids, AfterOf, LosesWay;
      ChildAhead(file.pages, cur, after, h, file.c, root, low, target);
      var childPageNum := ChooseChild(currentPageData, low, cur.keys, Pids(cur.kids), root);
      leaf := currentPageData.level == 1;
      if childPageNum == INVALID_NUMBER {
        file.UnPinClean(currentPageNum);
        currentPageNum := childPageNum;
      } else {
        MoveTo(childPageNum, base);
      }
    }

    /** The last part of startScan, on the leaf it reached (lines 448-493). */
    method StartInLeaf(ghost r: Reach, ghost base: multiset<PageId>) returns (out: StartOutcome)
      requires Valid() && file.unsaved == {} && scanExecuting && r == ReachOf(tree, query.low) && query.high <= INT_MAX
      requires currentPageNum == r.pid && currentPageNum in file.pages && currentPageData == file.pages[currentPageNum]
      requires file.pins == base + multiset{currentPageNum}
      modifies this`nextEntry, this`currentPageNum, this`currentPageData, this`ahead, file`pins
      ensures Valid() && ScanValid() && file.pins == base + multiset{currentPageNum}
      ensures out != PageZero && out != BadOpcodes && out != BadScanrange
      ensures Begun(out, StartIn(r.es, Flatten(r.later), query, |r.es| == file.c.leaf))
    {
      hide Holds, StartIn, TakeBelow, LeafHolds, Chain, PendingOf, ReachOf, Flatten, Answer;
      ScanReached(file.pages, file.numPages, tree, height, file.c, headerPageNum, query);
      ahead := [r.es] + r.later;
      var v := FindStart(currentPageData, query, r.es, Flatten(r.later));
      Settled(r.es, r.later, query, |r.es| == file.c.leaf, v);
      nextEntry := if v.Found? then v.i else -1;
      if v.Exhausted? {
        out := TrySibling(r, base);
      } else {
        out := if v.Found? then ScanStarted else NoSuchKeyFound;
      }
    }

    /** No entry of this leaf: on to the head of the next one, if any (lines 483-493). */
    method TrySibling(ghost r: Reach, ghost base: multiset<PageId>) returns (out: StartOutcome)
      requires Valid() && scanExecuting && ScanValid() && nextEntry == -1 && ahead == [r.es] + r.later
      requires currentPageNum == r.pid
      requires currentPageData.LeafImage? && file.pins == base + multiset{currentPageNum}
      requires currentPageData.rightSib == INVALID_NUMBER ==> Flatten(r.later) == []
      modifies this`nextEntry, this`currentPageNum, this`currentPageData, this`ahead, file`pins
      ensures Valid() && ScanValid() && file.pins == base + multiset{currentPageNum}
      ensures out == (if Flatten(r.later) == [] then NoSuchKeyFound else ScanStarted)
      ensures Pending() == if Flatten(r.later) == [] then []
                           else [Flatten(r.later)[0]] + TakeBelow(Flatten(r.later)[1..], query)
    {
      hide Holds, Chain, TakeBelow, PendingOf, Flatten;
      if currentPageData.rightSib == INVALID_NUMBER {
        DonePending(ahead, query);
        return NoSuchKeyFound;
      }
      ScanFromSibling(file.pages, r, file.c, query);
      MoveTo(currentPageData.rightSib, base);
      ahead := r.later;
      nextEntry := 0;
      return ScanStarted;
    }

    /** Returns the next entry and moves on (lines 500-555). */
    method ScanNext(ghost base: multiset<PageId>) returns (out: NextOutcome)
      requires Valid() && ScanValid() && file.pins == base + Held()
      modifies this`nextEntry, this`currentPageNum, this`currentPageData, this`ahead, file`pins
      ensures Valid() && ScanValid() && scanExecuting == old(scanExecuting) && query == old(query)
      ensures out == ScanNotInitialized <==> !scanExecuting
      ensures scanExecuting && old(Pending()) == [] ==> out == IndexScanCompleted && Pending() == []
      ensures scanExecuting && old(Pending()) != [] ==>
        out == Next(old(Pending())[0].rid) && Pending() == old(Pending())[1..]
      ensures file.pins == base + Held()
    {
      hide Holds, Chain, PendingOf;
      if !scanExecuting {
        out := ScanNotInitialized;
      } else if nextEntry == -1 {
        DonePending(ahead, query);
        out := IndexScanCompleted;
      } else {
        ScanSees(file.pages, currentPageNum, ahead, nextEntry, file.c, query);
        out := Next(currentPageData.rids[nextEntry]);
        Advance(base);
      }
    }

    /** scanNext after it has taken its entry: on inside the leaf, to the next leaf, or done. */
    method Advance(ghost base: multiset<PageId>)
      requires Valid() && scanExecuting && ScanValid() && nextEntry != -1
      requires file.pins == base + multiset{currentPageNum}
      modifies this`nextEntry, this`currentPageNum, this`currentPageData, this`ahead, file`pins
      ensures Valid() && ScanValid() && file.pins == base + multiset{currentPageNum}
      ensures old(Pending()) != [] && Pending() == old(Pending())[1..]
    {
      hide Holds, Chain, PendingOf;
      ScanSees(file.pages, currentPageNum, ahead, nextEntry, file.c, query);
      if currentPageData.rids[nextEntry + 1].pageNumber != INVALID_NUMBER {
        ScanStaysInLeaf(file.pages, currentPageNum, ahead, nextEntry, file.c, query);
        nextEntry := if query.BelowHigh(currentPageData.keys[nextEntry + 1]) then nextEntry + 1 else -1;
      } else {
        ScanLeavesLeaf(file.pages, currentPageNum, ahead, nextEntry, file.c, query);
        if currentPageData.rightSib == INVALID_NUMBER {
          DonePending(ahead, query);
          nextEntry := -1;
        } else {
          NextLeaf(base);
        }
      }
    }

    /** The head of the next leaf, or the end of the scan (lines 525-542). */
    method NextLeaf(ghost base: multiset<PageId>)
      requires Valid() && scanExecuting && ScanValid() && nextEntry != -1
      requires file.pins == base + multiset{currentPageNum}
      requires nextEntry + 1 == |ahead[0]| && currentPageData.LeafImage? && currentPageData.rightSib != INVALID_NUMBER
      modifies this`nextEntry, this`currentPageNum, this`currentPageData, this`ahead, file`pins
      ensures Valid() && ScanValid() && file.pins == base + multiset{currentPageNum}
      ensures old(Pending()) != [] && Pending() == old(Pending())[1..]
    {
      hide Holds, Chain, PendingOf, Flatten;
      ScanSees(file.pages, currentPageNum, ahead, nextEntry, file.c, query);
      ScanLeavesLeaf(file.pages, currentPageNum, ahead, nextEntry, file.c, query);
      MoveTo(currentPageData.rightSib, base);
      ahead := ahead[1..];
      nextEntry := if query.BelowHigh(currentPageData.keys[0]) then 0 else -1;
    }

    /** Lets the current page go and pins another (lines 490-492, 527-529). */
    method MoveTo(p: PageId, ghost base: multiset<PageId>)
      requires file.Valid() && file.unsaved == {} && file.pins == base + multiset{currentPageNum} && p in file.pages
      modifies this`currentPageNum, this`currentPageData, file`pins
      ensures file.Valid() && currentPageNum == p && currentPageData == file.pages[p]
      ensures file.pins == base + multiset{p}
    {
      file.UnPinClean(currentPageNum);
      assert file.pins == base;
      currentPageNum := p;
      currentPageData := file.ReadPage(currentPageNum);
    }

    /** A whole range query: start, take everything, end (p3/src/main.cpp lines 589-645).
        It returns the entries in range exactly when the guard holds. */
    method RunScan(low: int, lowOp: Operator, high: int, highOp: Operator, ghost base: multiset<PageId>)
      returns (out: StartOutcome, rids: seq<RecordId>, ghost got: seq<Entry>)
      requires Valid() && ScanValid() && file.pins == base + Held()
      requires StrictlySorted(Contents()) && KeysFit(Contents()) && low <= INT_MAX && high <= INT_MAX
      modifies this`scanExecuting, this`nextEntry, this`currentPageNum, this`currentPageData, this`query, this`ahead
      modifies file`pins
      ensures Valid() && rids == RidsOf(got)
      ensures |rids| == |got| && forall i :: 0 <= i < |got| ==> rids[i] == got[i].rid
      ensures Query(low, lowOp, high, highOp).Valid() ==>
        var q := Query(low, lowOp, high, highOp);
        && (Answered(out) && got == InRange(Contents(), q) <==> ScanGuard(tree, file.c, q))
        && (RidsDistinct(Contents()) ==>
             (Answered(out) && rids == RidsOf(InRange(Contents(), q)) <==> ScanGuard(tree, file.c, q)))
        && (ScanGuard(tree, file.c, q) ==>
             StrictlySorted(got) && forall e :: e in got <==> e in Contents() && Asked(e.key, low, lowOp, high, highOp))
      ensures !Query(low, lowOp, high, highOp).Valid() ==> !Answered(out) && rids == []
      ensures Answered(out) ==> got == Answer(ScanStart(tree, file.c, Query(low, lowOp, high, highOp)))
      ensures out != PageZero ==> ScanValid() && file.pins == base + Held() && (out == ScanStarted ==> !scanExecuting)
      ensures out == PageZero ==> file.pins == base
    {
      hide Holds, InOrder, Lost, ScanStart, ScanGuard, RidsOf, InRange, RidsDistinct, StrictlySorted, KeysFit, ScanAt;
      HoldsRoot(file.pages, file.numPages, tree, height, file.c, headerPageNum);
      RidsOfNone();
      out, rids, got := Collect(low, lowOp, high, highOp, base);
      var q := Query(low, lowOp, high, highOp);
      if q.Valid() {
        InRangeExact(Contents(), q);
        QueryExact(tree, height, file.c, q, Answered(out), got);
      }
    }

    /** The three calls of a query. */
    method Collect(low: int, lowOp: Operator, high: int, highOp: Operator, ghost base: multiset<PageId>)
      returns (out: StartOutcome, rids: seq<RecordId>, ghost got: seq<Entry>)
      requires Valid() && ScanValid() && file.pins == base + Held()
      requires StrictlySorted(Contents()) && low <= INT_MAX && high <= INT_MAX
      modifies this`scanExecuting, this`nextEntry, this`currentPageNum, this`currentPageData, this`query, this`ahead
      modifies file`pins
      ensures Valid() && rids == RidsOf(got)
      ensures |rids| == |got| && forall i :: 0 <= i < |got| ==> rids[i] == got[i].rid
      ensures Answered(out) <==> Query(low, lowOp, high, highOp).Valid() && !Lost(tree, file.c, low)
      ensures got == if Answered(out) then Answer(ScanStart(tree, file.c, Query(low, lowOp, high, highOp))) else []
      ensures out != PageZero ==> ScanValid() && file.pins == base + Held() && (out == ScanStarted ==> !scanExecuting)
      ensures out == PageZero ==> file.pins == base
    {
      hide Holds, InOrder, Lost, Chain, PendingOf, ScanStart, RidsOf, StrictlySorted;
      RidsOfNone();
      rids, got := [], [];
      out := StartScan(low, lowOp, high, highOp, base);
      if out == ScanStarted {
        got := Pending();
        rids := TakeAll(base);
      }
    }

    /** Everything a running scan has left, and its end. */
    method TakeAll(ghost base: multiset<PageId>) returns (rids: seq<RecordId>)
      requires Valid() && ScanValid() && scanExecuting && file.pins == base + multiset{currentPageNum}
      modifies this`scanExecuting, this`nextEntry, this`currentPageNum, this`currentPageData, this`ahead, file`pins
      ensures Valid() && ScanValid() && !scanExecuting && file.pins == base
      ensures rids == RidsOf(old(Pending())) && |rids| == |old(Pending())|
      ensures forall i :: 0 <= i < |rids| ==> rids[i] == old(Pending())[i].rid
    {
      hide Holds, Chain, PendingOf, RidsOf;
      rids := Drain(base);
      var _ := EndScan(base);
    }

    /** scanNext until the scan says it is complete. */
    method Drain(ghost base: multiset<PageId>) returns (rids: seq<RecordId>)
      requires Valid() && ScanValid() && scanExecuting && file.pins == base + multiset{currentPageNum}
      modifies this`nextEntry, this`currentPageNum, this`currentPageData, this`ahead, file`pins
      ensures Valid() && ScanValid() && scanExecuting && Pending() == []
      ensures rids == RidsOf(old(Pending())) && |rids| == |old(Pending())|
      ensures forall i :: 0 <= i < |rids| ==> rids[i] == old(Pending())[i].rid
      ensures file.pins == base + multiset{currentPageNum}
    {
      hide Holds, Chain, PendingOf;
      rids := [];
      var more := true;
      while more
        invariant Valid() && ScanValid() && scanExecuting && file.pins == base + multiset{currentPageNum}
        invariant rids + RidsOf(Pending()) == RidsOf(old(Pending()))
        invariant !more ==> Pending() == []
        decreases |Pending()|, more
      {
        ghost var was, sofar := Pending(), rids;
        var next := ScanNext(base);
        if next.Next? {
          rids := rids + [next.rid];
          assert rids + RidsOf(was[1..]) == sofar + ([was[0].rid] + RidsOf(was[1..]));
        } else {
          more := false;
        }
      }
    }
  }

  function RidsOf(s: seq<Entry>): (r: seq<RecordId>)
    ensures |r| == |s| && forall i :: 0 <= i < |s| ==> r[i] == s[i].rid
  {
    if s == [] then [] else [s[0].rid] + RidsOf(s[1..])
  }

  lemma RidsOfNone()
    ensures RidsOf([]) == []
  {}

  /** The caller was given an answer. */
  predicate Answered(out: StartOutcome) {
    out == ScanStarted || out == NoSuchKeyFound
  }

  ghost predicate KeysFit(s: seq<Entry>) {
    forall i :: 0 <= i < |s| ==> s[i].key <= INT_MAX
  }

  /** Every record is indexed once. */
  ghost predicate RidsDistinct(s: seq<Entry>) {
    forall i, j :: 0 <= i < j < |s| ==> s[i].rid != s[j].rid
  }

  /** With distinct record ids, the ids returned tell which entries were. */
  lemma {:induction false} RidsFaithful(s: seq<Entry>, a: seq<Entry>, b: seq<Entry>)
    requires RidsDistinct(s) && (forall e :: e in a ==> e in s) && (forall e :: e in b ==> e in s)
    ensures RidsOf(a) == RidsOf(b) <==> a == b
  {
    if a != [] && b != [] {
      RidsFaithful(s, a[1..], b[1..]);
      assert a[0] in s && b[0] in s;
      assert a == [a[0]] + a[1..] && b == [b[0]] + b[1..];
      assert RidsOf(a)[0] == a[0].rid && RidsOf(b)[0] == b[0].rid;
      assert RidsOf(a)[1..] == RidsOf(a[1..]) && RidsOf(b)[1..] == RidsOf(b[1..]);
    }
  }

  lemma {:induction false} InRangeWithin(s: seq<Entry>, q: Query)
    ensures forall e :: e in InRange(s, q) ==> e in s
  {
    if s != [] {
      InRangeWithin(s[1..], q);
    }
  }

  lemma {:induction false} TakeBelowWithin(s: seq<Entry>, q: Query)
    ensures forall e :: e in TakeBelow(s, q) ==> e in s
  {
    if s != [] {
      TakeBelowWithin(s[1..], q);
    }
  }

  lemma {:induction false} StartWithin(es: seq<Entry>, rest: seq<Entry>, q: Query, full: bool)
    ensures forall e :: e in Answer(StartIn(es, rest, q, full)) ==> e in es + rest
  {
    if es != [] {
      StartWithin(es[1..], rest, q, full);
      TakeBelowWithin(es[1..] + rest, q);
    } else if rest != [] {
      TakeBelowWithin(rest[1..], q);
    }
  }

  /** A range query on distinct keys returns exactly the entries in range, in key order, if
      and only if the guard holds; on distinct record ids, so for the ids returned. */
  lemma QueryExact(t: Tree, h: nat, c: Capacity, q: Query, answered: bool, got: seq<Entry>)
    requires Wf(t, h, c, true) && StrictlySorted(InOrder(t)) && q.Valid() && KeysFit(InOrder(t))
    requires answered <==> !Lost(t, c, q.low)
    requires answered ==> got == Answer(ScanStart(t, c, q))
    ensures answered && got == InRange(InOrder(t), q) <==> ScanGuard(t, c, q)
    ensures RidsDistinct(InOrder(t)) ==>
      (answered && RidsOf(got) == RidsOf(InRange(InOrder(t), q)) <==> ScanGuard(t, c, q))
  {
    hide InOrder, ReachOf, StartIn, InRange, Flatten, Wf, Lost, ScanGuard, RidsOf, StrictlySorted;
    ScanExact(t, h, c, q);
    if RidsDistinct(InOrder(t)) && !Lost(t, c, q.low) {
      var r := ReachOf(t, q.low);
      ReachBrackets(t, q.low, h, c, true);
      StartWithin(r.es, Flatten(r.later), q, |r.es| == c.leaf);
      InRangeWithin(InOrder(t), q);
      RidsFaithful(InOrder(t), Answer(ScanStart(t, c, q)), InRange(InOrder(t), q));
    }
  }
}
