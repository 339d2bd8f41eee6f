/** What the buffer pool means: the contents a client may rely on, and what eviction,
    installation and write-back do to them. */
module BufferSpec {
  import opened Storage
  import opened HashTable
  import opened Clock

  type Body = string

  /** A page with its own number, the next pointer only the file maintains, and the rest. */
  datatype Page = Page(number: PageId, next: PageId, body: Body)

  type Disk = map<PageKey, Page>

  /** File::writePage keeps the next pointer found on disk. */
  function Written(disk: Disk, k: PageKey, page: Page): Disk
    requires k in disk
  {
    disk[k := page.(next := disk[k].next)]
  }

  /** The content of every allocated page: its frame's if cached, else the disk's. */
  function Logical(pool: seq<Page>, m: map<PageKey, FrameId>, disk: Disk): map<PageKey, Body> {
    map k | k in disk :: if k in m && m[k] < |pool| then pool[m[k]].body else disk[k].body
  }

  /** Frame f caches page k soundly: a clean frame whose page nobody has changed agrees
      with the disk. */
  ghost predicate Cached(d: BufDesc, page: Page, f: FrameId, m: map<PageKey, FrameId>, disk: Disk,
                         unsaved: set<FrameId>)
  {
    var k := d.Key();
    && d.file != "" && k in m && m[k] == f && k in disk && page.number == d.pageNo
    && (d.dirty || f in unsaved || page.body == disk[k].body)
    && (f in unsaved ==> d.dirty || d.pinCnt > 0)
  }

  ghost predicate Free(d: BufDesc, f: FrameId, unsaved: set<FrameId>) {
    d == BufDesc.Cleared() && f !in unsaved
  }

  /** The pool's invariant: the table binds a page to a frame exactly when the frame's
      descriptor is valid for it. `unsaved` are the frames a client has written to
      without having unpinned them dirty since. */
  ghost predicate Sound(ds: seq<BufDesc>, pool: seq<Page>, m: map<PageKey, FrameId>, disk: Disk,
                        unsaved: set<FrameId>)
  {
    && |ds| == |pool|
    && (forall f :: 0 <= f < |ds| ==>
          if ds[f].valid then Cached(ds[f], pool[f], f, m, disk, unsaved) else Free(ds[f], f, unsaved))
    && (forall k :: k in m ==> m[k] < |ds| && ds[m[k]].valid && ds[m[k]].Key() == k)
    && (forall k :: k in disk ==> disk[k].number == k.pageNo)
    && (forall f :: f in unsaved ==> f < |ds|)
  }

  /** No page sits in two frames. */
  lemma OneFramePerPage(ds: seq<BufDesc>, pool: seq<Page>, m: map<PageKey, FrameId>, disk: Disk, unsaved: set<FrameId>,
                        f: nat, g: nat)
    requires Sound(ds, pool, m, disk, unsaved) && f < |ds| && g < |ds| && ds[f].valid && ds[g].valid
    requires ds[f].Key() == ds[g].Key()
    ensures f == g
  {
  }

  /** The frame a page is bound to. */
  lemma BoundFrame(ds: seq<BufDesc>, pool: seq<Page>, m: map<PageKey, FrameId>, disk: Disk, unsaved: set<FrameId>,
                   k: PageKey)
    requires Sound(ds, pool, m, disk, unsaved) && k in m
    ensures m[k] < |ds| && ds[m[k]].valid && ds[m[k]].Key() == k && k in disk
    ensures Cached(ds[m[k]], pool[m[k]], m[k], m, disk, unsaved)
    ensures Logical(pool, m, disk)[k] == pool[m[k]].body
  {
  }

  /** The sweep of the clock only clears reference bits. */
  lemma RefbitsSound(ds: seq<BufDesc>, ds1: seq<BufDesc>, pool: seq<Page>, m: map<PageKey, FrameId>, disk: Disk,
                     unsaved: set<FrameId>)
    requires Sound(ds, pool, m, disk, unsaved) && |ds1| == |ds|
    requires forall f :: 0 <= f < |ds| ==> ds1[f] == ds[f].(refbit := ds1[f].refbit)
    requires forall f :: 0 <= f < |ds| && !ds[f].valid ==> ds1[f] == ds[f]
    ensures Sound(ds1, pool, m, disk, unsaved)
  {
  }

  /** The disk after frame f is given up. */
  function Evicted(d: BufDesc, page: Page, disk: Disk): Disk
    requires d.Key() in disk
  {
    if d.dirty then Written(disk, d.Key(), page) else disk
  }

  lemma EvictSound(ds: seq<BufDesc>, pool: seq<Page>, m: map<PageKey, FrameId>, disk: Disk, unsaved: set<FrameId>,
                   f: nat)
    requires Sound(ds, pool, m, disk, unsaved) && f < |ds| && ds[f].valid
    ensures ds[f].Key() in disk && ds[f].Key() in m
    ensures Sound(ds[f := BufDesc.Cleared()], pool, m - {ds[f].Key()}, Evicted(ds[f], pool[f], disk), unsaved - {f})
  {
  }

  /** Giving up a frame is invisible exactly when the frame is dirty or agrees with the
      disk; the invariant makes that so for every unpinned frame. */
  lemma EvictInvisible(ds: seq<BufDesc>, pool: seq<Page>, m: map<PageKey, FrameId>, disk: Disk, unsaved: set<FrameId>,
                       f: nat)
    requires Sound(ds, pool, m, disk, unsaved) && f < |ds| && ds[f].valid
    ensures var k := ds[f].Key();
      && k in disk && k in m
      && (Logical(pool, m - {k}, Evicted(ds[f], pool[f], disk)) == Logical(pool, m, disk)
          <==> ds[f].dirty || pool[f].body == disk[k].body)
      && (ds[f].pinCnt == 0 ==> ds[f].dirty || pool[f].body == disk[k].body)
  {
    var k := ds[f].Key();
    assert Cached(ds[f], pool[f], f, m, disk, unsaved);
    hide Sound, Cached;
    SameButAt(Logical(pool, m, disk), Logical(pool, m - {k}, Evicted(ds[f], pool[f], disk)), k);
  }

  lemma SameButAt(a: map<PageKey, Body>, b: map<PageKey, Body>, k: PageKey)
    requires a.Keys == b.Keys && k in a && forall q :: q in a && q != k ==> b[q] == a[q]
    ensures a == b <==> a[k] == b[k]
  {}

  /** The clock's whole effect: it stops exactly when some frame is invalid or unpinned,
      there, and the invariant survives. */
  lemma SweepSound(ds: seq<BufDesc>, pool: seq<Page>, m: map<PageKey, FrameId>, disk: Disk, unsaved: set<FrameId>,
                   hand: nat, fuel: nat)
    requires Sound(ds, pool, m, disk, unsaved) && hand < |ds| && fuel == 2 * |ds| + 1
    ensures var w := Sweep(ds, hand, fuel);
      && Sound(w.descs, pool, m, disk, unsaved)
      && (w.Stopped? <==> AnyReusable(ds))
      && (w.Stopped? ==> ds[w.hand].Reusable() && (w.descs[w.hand].valid ==> w.descs[w.hand].pinCnt == 0))
      && (forall f :: 0 <= f < |ds| ==> w.descs[f] == ds[f].(refbit := w.descs[f].refbit))
  {
    hide Sound, Sweep;
    ClocksAgree(ds, hand, 2 * |ds|);
    SweepKeeps(ds, hand, fuel);
    RefbitsSound(ds, Sweep(ds, hand, fuel).descs, pool, m, disk, unsaved);
  }

  /** Some frame is free or unpinned. */
  lemma AnyReusableIs(ds: seq<BufDesc>)
    ensures AnyReusable(ds) <==> exists f :: 0 <= f < |ds| && (!ds[f].valid || ds[f].pinCnt == 0)
  {
    assert forall f :: 0 <= f < |ds| ==> (ds[f].Reusable() <==> !ds[f].valid || ds[f].pinCnt == 0);
  }

  lemma SameButFrame(ds: seq<BufDesc>, ds1: seq<BufDesc>, f: nat, d: BufDesc)
    requires f < |ds| == |ds1| && ds1 == ds[f := ds1[f]]
    ensures ds1[f := d] == ds[f := d]
  {
  }

  /** The frame the clock ends at has lost its reference bit, if it had one. */
  lemma StoppedClear(ds: seq<BufDesc>, pool: seq<Page>, m: map<PageKey, FrameId>, disk: Disk, unsaved: set<FrameId>,
                     hand: nat, found: bool, v: nat, ds1: seq<BufDesc>)
    requires Sound(ds, pool, m, disk, unsaved) && hand < |ds| == |ds1| && v < |ds|
    requires SecondChance(ds, hand, found, v, ds1)
    ensures ds1[v] == ds[v].(refbit := false) && ds1[v := ds[v].(refbit := false)] == ds1
    ensures forall f :: 0 <= f < |ds| ==> ds1[f] == ds[f].(refbit := ds1[f].refbit)
  {
    hide Steps;
    SomeVictim(ds, hand);
    if u :| FirstVictim(ds, hand, u) {
      assert ClearedTo(ds, hand, u, ds1);
    } else if u :| SecondVictim(ds, hand, u) {
      assert ClearedAll(ds, ds1);
    }
  }

  /** A page read from disk goes into a free frame. */
  lemma InstallSound(ds: seq<BufDesc>, pool: seq<Page>, m: map<PageKey, FrameId>, disk: Disk, unsaved: set<FrameId>,
                     f: nat, k: PageKey)
    requires Sound(ds, pool, m, disk, unsaved) && f < |ds| && !ds[f].valid && k in disk && k !in m && k.file != ""
    ensures Sound(ds[f := BufDesc.Assigned(k)], pool[f := disk[k]], m[k := f], disk, unsaved)
  {
  }

  lemma InstallInvisible(ds: seq<BufDesc>, pool: seq<Page>, m: map<PageKey, FrameId>, disk: Disk, unsaved: set<FrameId>,
                         f: nat, k: PageKey)
    requires Sound(ds, pool, m, disk, unsaved) && f < |ds| && !ds[f].valid && k in disk && k !in m
    ensures Logical(pool[f := disk[k]], m[k := f], disk) == Logical(pool, m, disk)
  {
  }

  /** Only next pointers differ. */
  ghost predicate Relinked(disk: Disk, disk1: Disk) {
    disk1.Keys == disk.Keys && forall k :: k in disk ==> disk1[k] == disk[k].(next := disk1[k].next)
  }

  lemma RelinkSound(ds: seq<BufDesc>, pool: seq<Page>, m: map<PageKey, FrameId>, disk: Disk, disk1: Disk,
                    unsaved: set<FrameId>)
    requires Sound(ds, pool, m, disk, unsaved) && Relinked(disk, disk1)
    ensures Sound(ds, pool, m, disk1, unsaved) && Logical(pool, m, disk1) == Logical(pool, m, disk)
  {
  }

  /** The disk with the next pointers the file rewrote. */
  function RelinkBy(disk: Disk, relink: map<PageKey, PageId>): (disk1: Disk)
    ensures Relinked(disk, disk1)
  {
    map k | k in disk :: if k in relink then disk[k].(next := relink[k]) else disk[k]
  }

  lemma RelinkedAt(disk: Disk, relink: map<PageKey, PageId>)
    ensures forall q :: q in disk ==>
      RelinkBy(disk, relink)[q] == disk[q].(next := if q in relink then relink[q] else disk[q].next)
  {
  }

  lemma UnboundWhenAbsent(ds: seq<BufDesc>, pool: seq<Page>, m: map<PageKey, FrameId>, disk: Disk,
                          unsaved: set<FrameId>, k: PageKey)
    requires Sound(ds, pool, m, disk, unsaved) && k !in disk
    ensures k !in m
  {
  }

  lemma NotListed(ds: seq<BufDesc>, pool: seq<Page>, m: map<PageKey, FrameId>, disk: Disk, k: PageKey)
    requires k !in disk
    ensures Logical(pool, m, disk) - {k} == Logical(pool, m, disk)
  {}

  /** A frame dropped without write-back: only its own page can be affected. */
  lemma ForgetSound(ds: seq<BufDesc>, pool: seq<Page>, m: map<PageKey, FrameId>, disk: Disk, unsaved: set<FrameId>,
                    k: PageKey)
    requires Sound(ds, pool, m, disk, unsaved) && k in m
    ensures m[k] < |ds| && Sound(ds[m[k] := BufDesc.Cleared()], pool, m - {k}, disk, unsaved - {m[k]})
    ensures Logical(pool, m - {k}, disk) - {k} == Logical(pool, m, disk) - {k}
  {
  }

  ghost predicate PinnedIn(ds: seq<BufDesc>, file: FileName) {
    exists f :: 0 <= f < |ds| && ds[f].valid && ds[f].file == file && ds[f].pinCnt > 0
  }

  ghost predicate AnyFree(ds: seq<BufDesc>) {
    exists f :: 0 <= f < |ds| && !ds[f].valid
  }

  lemma FrameFacts(ds: seq<BufDesc>, pool: seq<Page>, m: map<PageKey, FrameId>, disk: Disk, unsaved: set<FrameId>,
                   f: nat)
    requires Sound(ds, pool, m, disk, unsaved) && f < |ds|
    ensures ds[f].valid <==> ds[f].file != ""
    ensures !ds[f].valid ==> ds[f] == BufDesc.Cleared() && f !in unsaved
  {
  }

  /** A free frame is matched only by the nameless file, which no page belongs to. */
  lemma NamelessFree(ds: seq<BufDesc>, pool: seq<Page>, m: map<PageKey, FrameId>, disk: Disk, unsaved: set<FrameId>,
                     f: nat)
    requires Sound(ds, pool, m, disk, unsaved) && f < |ds| && !ds[f].valid
    ensures ds[f].file == "" && AnyFree(ds) && !PinnedIn(ds, "")
  {
  }

  /** With no frame left for a file, what its pages contain is what the disk holds. */
  lemma FlushedToDisk(ds: seq<BufDesc>, pool: seq<Page>, m: map<PageKey, FrameId>, disk: Disk, unsaved: set<FrameId>,
                      file: FileName)
    requires Sound(ds, pool, m, disk, unsaved) && forall f :: 0 <= f < |ds| ==> !(ds[f].valid && ds[f].file == file)
    ensures forall k :: k in m ==> k.file != file
    ensures forall k :: k in disk && k.file == file ==>
      k in Logical(pool, m, disk) && disk[k].body == Logical(pool, m, disk)[k]
  {}

  /** The disk once the frames below n that belong to the file have been flushed: a dirty
      frame's page takes its place there, with the next pointer the disk has. */
  ghost function Flushed(ds: seq<BufDesc>, pool: seq<Page>, m: map<PageKey, FrameId>, disk: Disk, file: FileName,
                         n: nat): Disk
    requires |ds| == |pool|
  {
    map k | k in disk ::
      if k in m && k.file == file && m[k] < n && m[k] < |ds| && ds[m[k]].dirty then
        Page(pool[m[k]].number, disk[k].next, pool[m[k]].body)
      else disk[k]
  }

  /** The table without those frames. */
  ghost function Unflushed(m: map<PageKey, FrameId>, file: FileName, n: nat): map<PageKey, FrameId> {
    map k | k in m && !(k.file == file && m[k] < n) :: m[k]
  }

  /** One frame more. */
  lemma FlushStep(ds: seq<BufDesc>, pool: seq<Page>, m: map<PageKey, FrameId>, disk: Disk, unsaved: set<FrameId>,
                  file: FileName, n: nat)
    requires Sound(ds, pool, m, disk, unsaved) && n < |ds|
    ensures ds[n].valid && ds[n].file == file ==>
      var k, before := ds[n].Key(), Flushed(ds, pool, m, disk, file, n);
      && k in disk && Unflushed(m, file, n + 1) == Unflushed(m, file, n) - {k}
      && Flushed(ds, pool, m, disk, file, n + 1)
         == if ds[n].dirty then before[k := Page(pool[n].number, disk[k].next, pool[n].body)] else before
    ensures ds[n].file != file ==>
      && Unflushed(m, file, n + 1) == Unflushed(m, file, n)
      && Flushed(ds, pool, m, disk, file, n + 1) == Flushed(ds, pool, m, disk, file, n)
  {
    hide Free;
    assert ds[n].valid ==> Cached(ds[n], pool[n], n, m, disk, unsaved);
  }

  lemma FlushedKeeps(ds: seq<BufDesc>, pool: seq<Page>, m: map<PageKey, FrameId>, disk: Disk, file: FileName, n: nat)
    requires |ds| == |pool|
    ensures var disk1 := Flushed(ds, pool, m, disk, file, n);
      && disk1.Keys == disk.Keys && (forall k :: k in disk ==> disk1[k].next == disk[k].next)
      && forall k :: k in disk && k.file != file ==> disk1[k] == disk[k]
  {
  }

  lemma FlushNone(ds: seq<BufDesc>, pool: seq<Page>, m: map<PageKey, FrameId>, disk: Disk, file: FileName)
    requires |ds| == |pool|
    ensures Flushed(ds, pool, m, disk, file, 0) == disk && Unflushed(m, file, 0) == m
  {
  }

  lemma InTheWay(ds: seq<BufDesc>, f: nat, file: FileName)
    requires f < |ds| && ds[f].valid && ds[f].file == file && ds[f].pinCnt > 0
    ensures PinnedIn(ds, file)
  {
  }

  /** Nothing stands in the way of flushing the file. */
  lemma NothingInTheWay(ds: seq<BufDesc>, pool: seq<Page>, m: map<PageKey, FrameId>, disk: Disk, unsaved: set<FrameId>,
                        file: FileName)
    requires Sound(ds, pool, m, disk, unsaved)
    requires forall f :: 0 <= f < |ds| && ds[f].file == file ==> ds[f].valid && ds[f].pinCnt == 0
    ensures !PinnedIn(ds, file) && !(file == "" && AnyFree(ds))
  {
  }

  /** A page appears on the disk. */
  lemma DiskGains(ds: seq<BufDesc>, pool: seq<Page>, m: map<PageKey, FrameId>, disk: Disk, unsaved: set<FrameId>,
                  k: PageKey, page: Page)
    requires Sound(ds, pool, m, disk, unsaved) && k !in m && page.number == k.pageNo
    ensures Sound(ds, pool, m, disk[k := page], unsaved)
    ensures Logical(pool, m, disk[k := page]) == Logical(pool, m, disk)[k := page.body]
  {
    hide Free;
    forall f | 0 <= f < |ds| && ds[f].valid ensures Cached(ds[f], pool[f], f, m, disk[k := page], unsaved) {
      assert Cached(ds[f], pool[f], f, m, disk, unsaved);
    }
  }

  /** A page that nobody caches vanishes from the disk. */
  lemma DiskLoses(ds: seq<BufDesc>, pool: seq<Page>, m: map<PageKey, FrameId>, disk: Disk, unsaved: set<FrameId>,
                  k: PageKey)
    requires Sound(ds, pool, m, disk, unsaved) && k !in m
    ensures Sound(ds, pool, m, disk - {k}, unsaved) && Logical(pool, m, disk - {k}) == Logical(pool, m, disk) - {k}
  {
    hide Free;
    forall f | 0 <= f < |ds| && ds[f].valid ensures Cached(ds[f], pool[f], f, m, disk - {k}, unsaved) {
      assert Cached(ds[f], pool[f], f, m, disk, unsaved);
    }
  }

  /** A client changes a page through its frame. */
  lemma WriteSound(ds: seq<BufDesc>, pool: seq<Page>, m: map<PageKey, FrameId>, disk: Disk, unsaved: set<FrameId>,
                   f: nat, body: Body)
    requires Sound(ds, pool, m, disk, unsaved) && f < |ds| && ds[f].valid && ds[f].pinCnt > 0
    ensures var pool1 := pool[f := pool[f].(body := body)];
      && Sound(ds, pool1, m, disk, unsaved + {f})
      && Logical(pool1, m, disk) == Logical(pool, m, disk)[ds[f].Key() := body]
  {
  }

  /** The descriptor after one pin was given back. */
  function Unpinned(d: BufDesc, dirty: bool): BufDesc
    requires d.pinCnt > 0
  {
    d.(pinCnt := d.pinCnt - 1, dirty := d.dirty || dirty)
  }

  lemma DescSound(ds: seq<BufDesc>, pool: seq<Page>, m: map<PageKey, FrameId>, disk: Disk, unsaved: set<FrameId>,
                  f: nat, d: BufDesc, unsaved1: set<FrameId>)
    requires Sound(ds, pool, m, disk, unsaved) && f < |ds| && ds[f].valid
    requires d.valid && d.Key() == ds[f].Key() && (ds[f].dirty ==> d.dirty)
    requires unsaved1 == unsaved || (unsaved1 == unsaved - {f} && d.dirty)
    ensures Sound(ds[f := d], pool, m, disk, unsaved1) <==> (f in unsaved1 ==> d.dirty || d.pinCnt > 0)
  {
  }
}
