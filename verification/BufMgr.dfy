/** The buffer manager (p2/src/buffer.cpp): frames, pins, dirty bits and eviction,
    changed in place, and invisible to its clients. */
module BufferManager {
  import opened Storage
  import opened HashTable
  import opened Clock
  import opened BufferSpec

  datatype Outcome =
    | Ok
    | BufferExceeded
    | InvalidPage
    | PageNotPinned
    | PagePinned
    | BadBuffer

  class BufMgr {
    const bufDescTable: array<BufDesc>
    const bufPool: array<Page>
    const hashTable: BufHashTbl
    var clockHand: FrameId
    // the files
    var disk: Disk
    // frames written to since they were last unpinned dirty
    ghost var unsaved: set<FrameId>

    ghost predicate Valid()
      reads this, bufDescTable, bufPool, hashTable, hashTable.Repr
    {
      && clockHand < bufDescTable.Length
      && hashTable.Valid() && this !in hashTable.Repr && bufDescTable !in hashTable.Repr && bufPool !in hashTable.Repr
      && bufDescTable as object != bufPool as object && bufDescTable.Length == bufPool.Length
      && Sound(bufDescTable[..], bufPool[..], hashTable.bindings, disk, unsaved)
    }

    /** What the clients see: the content of every page. */
    ghost function Contents(): map<PageKey, Body>
      reads this, bufPool, hashTable
    {
      Logical(bufPool[..], hashTable.bindings, disk)
    }

    /** An empty pool over the given files (lines 44-55). */
    constructor (bufs: nat, hash: PageKey -> nat, files: Disk)
      requires bufs > 0 && forall k :: k in files ==> files[k].number == k.pageNo
      ensures Valid() && fresh(bufDescTable) && fresh(bufPool) && fresh(hashTable.Repr)
      ensures bufDescTable.Length == bufs && disk == files && Contents() == map k | k in files :: files[k].body
      ensures clockHand == bufs - 1 && hashTable.bindings == map[] && unsaved == {} && hashTable.hash == hash
      ensures forall f :: 0 <= f < bufs ==> !bufDescTable[f].valid && bufDescTable[f].pinCnt == 0
    {
      bufDescTable := new BufDesc[bufs](_ => BufDesc.Cleared());
      bufPool := new Page[bufs](_ => Page(INVALID_NUMBER, INVALID_NUMBER, ""));
      hashTable := new BufHashTbl(6 * bufs / 5 / 2 * 2 + 1, hash);
      clockHand := bufs - 1;
      disk := files;
      unsaved := {};
    }

    /** The clock picked `frame` by the second chance rule, cleared exactly the bits it should
        and touched nothing else of the other frames. */
    twostate predicate Picked(ok: bool, frame: FrameId)
      reads this, bufDescTable
    {
      && old(clockHand) < bufDescTable.Length && frame < bufDescTable.Length && clockHand == frame
      && (forall f :: 0 <= f < bufDescTable.Length && f != frame ==>
            bufDescTable[f] == old(bufDescTable[f]).(refbit := bufDescTable[f].refbit))
      && SecondChance(old(bufDescTable[..]), old(clockHand), ok, frame,
                      bufDescTable[..][frame := old(bufDescTable[frame]).(refbit := false)])
    }

    /** The disk once the page in `frame` has been given up. */
    twostate function GivenUp(ok: bool, frame: FrameId): (r: Disk)
      reads this
      ensures r.Keys == old(disk).Keys && forall k :: k in r ==> r[k].next == old(disk)[k].next
    {
      if ok && frame < bufDescTable.Length && frame < bufPool.Length
         && old(bufDescTable[frame].valid && bufDescTable[frame].dirty && bufDescTable[frame].Key() in disk) then
        var k := old(bufDescTable[frame]).Key();
        old(disk)[k := Page(old(bufPool[frame]).number, old(disk)[k].next, old(bufPool[frame]).body)]
      else old(disk)
    }

    /** The table without the page that was in `frame`. */
    twostate function Unbound(frame: FrameId): map<PageKey, FrameId>
      reads this
    {
      if frame < bufDescTable.Length && old(bufDescTable[frame].valid) then
        old(hashTable.bindings) - {old(bufDescTable[frame]).Key()}
      else old(hashTable.bindings)
    }

    /** Finds a frame to reuse and gives up the page in it (lines 59-106). */
    method AllocBuf() returns (ok: bool, frame: FrameId)
      requires Valid()
      modifies this`clockHand, this`disk, this`unsaved, bufDescTable, hashTable.Repr
      ensures Valid() && fresh(hashTable.Repr - old(hashTable.Repr))
      ensures Contents() == old(Contents()) && disk.Keys == old(disk.Keys)
      ensures ok <==> AnyReusable(old(bufDescTable[..]))
      ensures ok
        <==> exists f :: 0 <= f < bufDescTable.Length && old(!bufDescTable[f].valid || bufDescTable[f].pinCnt == 0)
      ensures Picked(ok, frame)
      ensures ok ==> bufDescTable[frame] == BufDesc("", INVALID_NUMBER, 0, false, false, false)
      ensures PinnedStay() && bufPool[..] == old(bufPool[..])
      ensures hashTable.bindings == if ok then Unbound(frame) else old(hashTable.bindings)
      ensures ok ==> old(!bufDescTable[frame].valid || bufDescTable[frame].pinCnt == 0)
      ensures unsaved == if ok then old(unsaved) - {frame} else old(unsaved)
      ensures disk == GivenUp(ok, frame) && forall k :: k in old(disk) ==> disk[k].next == old(disk)[k].next
    {
      hide Sound, Sweep, Logical, AnyReusable, SecondChance;
      ghost var n, ds := bufDescTable.Length, bufDescTable[..];
      SweepSound(ds, bufPool[..], hashTable.bindings, disk, unsaved, NextHand(clockHand, n), 2 * n + 1);
      AnyReusableIs(ds);
      ok, frame := FirstClock(bufDescTable, clockHand);
      StoppedClear(ds, bufPool[..], hashTable.bindings, disk, unsaved, old(clockHand), ok, frame, bufDescTable[..]);
      clockHand := frame;
      FrameFacts(ds, bufPool[..], hashTable.bindings, disk, unsaved, frame);
      ghost var ds1 := bufDescTable[..];
      if ok && bufDescTable[frame].valid {
        GiveUp(frame);
      }
      assert bufDescTable[..][frame := ds[frame].(refbit := false)] == ds1;
    }

    /** Writes a dirty victim back, unbinds it and clears its descriptor. */
    method GiveUp(frame: FrameId)
      requires Valid() && frame < bufDescTable.Length && bufDescTable[frame].valid && bufDescTable[frame].pinCnt == 0
      modifies this`disk, this`unsaved, bufDescTable, hashTable.Repr
      ensures Valid() && fresh(hashTable.Repr - old(hashTable.Repr))
      ensures Contents() == old(Contents())
      ensures bufDescTable[..] == old(bufDescTable[..])[frame := BufDesc("", INVALID_NUMBER, 0, false, false, false)]
      ensures hashTable.bindings == old(hashTable.bindings) - {old(bufDescTable[frame]).Key()}
      ensures old(bufDescTable[frame]).Key() in old(disk)
      ensures disk == GivenUp(true, frame) && disk.Keys == old(disk.Keys) && unsaved == old(unsaved) - {frame}
      ensures old(bufDescTable[frame].dirty) ==> disk[old(bufDescTable[frame]).Key()].body == bufPool[frame].body
      ensures forall k :: k in old(disk) ==> disk[k].next == old(disk)[k].next
    {
      hide Sound, Logical;
      var d := bufDescTable[frame];
      EvictSound(bufDescTable[..], bufPool[..], hashTable.bindings, disk, unsaved, frame);
      EvictInvisible(bufDescTable[..], bufPool[..], hashTable.bindings, disk, unsaved, frame);
      if d.dirty {
        disk := Written(disk, d.Key(), bufPool[frame]);
      }
      var _ := hashTable.Remove(d.Key());
      bufDescTable[frame] := BufDesc.Cleared();
      unsaved := unsaved - {frame};
    }

    /** Pins a page, reading it in if need be (lines 108-132). */
    method ReadPage(k: PageKey) returns (out: Outcome, fid: FrameId)
      requires Valid() && k.file != ""
      modifies this`clockHand, this`disk, this`unsaved, bufDescTable, bufPool, hashTable.Repr
      ensures Valid() && fresh(hashTable.Repr - old(hashTable.Repr))
      ensures Contents() == old(Contents()) && disk.Keys == old(disk.Keys)
      ensures out == (if k in old(hashTable.bindings) then Ok
                      else if !AnyReusable(old(bufDescTable[..])) then BufferExceeded
                      else if k !in old(disk) then InvalidPage else Ok)
      ensures out == Ok ==> Shows(fid, k) && bufDescTable[fid].pinCnt == old(Pins(k)) + 1
      ensures if out == Ok then PinnedStayBut(fid) else PinnedStay()
      ensures k in old(hashTable.bindings) ==>
        && fid == old(hashTable.bindings)[k] < bufDescTable.Length && disk == old(disk) && clockHand == old(clockHand)
        && bufDescTable[..] == old(bufDescTable[..])[fid := Pinned(old(bufDescTable[fid]))]
        && hashTable.bindings == old(hashTable.bindings) && bufPool[..] == old(bufPool[..]) && unsaved == old(unsaved)
      ensures k !in old(hashTable.bindings) ==>
        && Picked(out != BufferExceeded, fid) && disk == GivenUp(out != BufferExceeded, fid)
        && unsaved == (if out == BufferExceeded then old(unsaved) else old(unsaved) - {fid})
        && hashTable.bindings == if out == Ok then Unbound(fid)[k := fid]
                                 else if out == InvalidPage then Unbound(fid) else old(hashTable.bindings)
      ensures out != Ok ==> bufPool[..] == old(bufPool[..])
      ensures k !in old(hashTable.bindings) && out == Ok ==>
        && old(!bufDescTable[fid].valid || bufDescTable[fid].pinCnt == 0)
        && bufDescTable[fid] == BufDesc(k.file, k.pageNo, 1, false, true, true)
        && bufPool[..] == old(bufPool[..])[fid := disk[k]]
      ensures forall q :: q in old(disk) ==> disk[q].next == old(disk)[q].next
    {
      hide Sound, AnyReusable, Logical, SecondChance;
      var found;
      found, fid := hashTable.Lookup(k);
      if found {
        PinCached(k, fid);
        return Ok, fid;
      }
      var ok;
      ok, fid := AllocBuf();
      if !ok {
        return BufferExceeded, fid;
      }
      if k !in disk {
        return InvalidPage, fid;
      }
      ghost var ds1 := bufDescTable[..];
      Install(k, fid);
      SameButFrame(ds1, bufDescTable[..], fid, old(bufDescTable[fid]).(refbit := false));
      out := Ok;
    }

    /** One more pin, and a reference. */
    static ghost function Pinned(d: BufDesc): BufDesc {
      BufDesc(d.file, d.pageNo, d.pinCnt + 1, d.dirty, d.valid, true)
    }

    /** No pinned page lost its frame, a pin or its content. */
    twostate predicate PinnedStay()
      reads bufDescTable, bufPool
    {
      PinnedStayBut(bufDescTable.Length)
    }

    twostate predicate PinnedStayBut(fid: FrameId)
      reads bufDescTable, bufPool
    {
      && bufDescTable.Length <= bufPool.Length
      && forall f | 0 <= f < bufDescTable.Length && f != fid ::
        old(bufDescTable[f].valid && bufDescTable[f].pinCnt > 0) ==>
          bufDescTable[f] == old(bufDescTable[f]).(refbit := bufDescTable[f].refbit) && bufPool[f] == old(bufPool[f])
    }

    /** Frame fid holds page k for a client, marked as referenced, with the content the
        client may rely on. */
    ghost predicate Shows(fid: FrameId, k: PageKey)
      reads this, bufDescTable, bufPool, hashTable
    {
      && fid < bufDescTable.Length && fid < bufPool.Length
      && bufDescTable[fid].valid && bufDescTable[fid].Key() == k
      && bufDescTable[fid].pinCnt > 0 && bufDescTable[fid].refbit
      && k in Contents() && bufPool[fid].body == Contents()[k]
    }

    /** How often page k is pinned. */
    ghost function Pins(k: PageKey): nat
      reads bufDescTable, hashTable
    {
      if k in hashTable.bindings && hashTable.bindings[k] < bufDescTable.Length then
        bufDescTable[hashTable.bindings[k]].pinCnt
      else 0
    }

    /** One more pin on a cached page (lines 113-117). */
    method PinCached(k: PageKey, fid: FrameId)
      requires Valid() && k in hashTable.bindings && hashTable.bindings[k] == fid
      modifies bufDescTable
      ensures Valid() && Contents() == old(Contents())
      ensures Shows(fid, k) && bufDescTable[fid].pinCnt == old(Pins(k)) + 1 && PinnedStayBut(fid)
      ensures bufDescTable[..] == old(bufDescTable[..])[fid := Pinned(old(bufDescTable[fid]))]
    {
      BoundFrame(bufDescTable[..], bufPool[..], hashTable.bindings, disk, unsaved, k);
      var d := bufDescTable[fid].(refbit := true, pinCnt := bufDescTable[fid].pinCnt + 1);
      DescSound(bufDescTable[..], bufPool[..], hashTable.bindings, disk, unsaved, fid, d, unsaved);
      bufDescTable[fid] := d;
      assert bufDescTable[..] == old(bufDescTable[..])[fid := d];
    }

    /** A page from disk enters a free frame (lines 122-127). */
    method Install(k: PageKey, fid: FrameId)
      requires Valid() && fid < bufDescTable.Length && !bufDescTable[fid].valid
      requires k in disk && k !in hashTable.bindings && k.file != ""
      modifies bufDescTable, bufPool, hashTable.Repr
      ensures Valid() && fresh(hashTable.Repr - old(hashTable.Repr)) && Contents() == old(Contents())
      ensures Shows(fid, k) && bufDescTable[fid].pinCnt == 1 && PinnedStayBut(fid)
      ensures bufDescTable[..] == old(bufDescTable[..])[fid := BufDesc(k.file, k.pageNo, 1, false, true, true)]
      ensures bufPool[..] == old(bufPool[..])[fid := disk[k]] && hashTable.bindings == old(hashTable.bindings)[k := fid]
    {
      InstallSound(bufDescTable[..], bufPool[..], hashTable.bindings, disk, unsaved, fid, k);
      InstallInvisible(bufDescTable[..], bufPool[..], hashTable.bindings, disk, unsaved, fid, k);
      bufPool[fid] := disk[k];
      var _ := hashTable.Insert(k, fid);
      bufDescTable[fid] := BufDesc.Assigned(k);
      assert bufDescTable[..] == old(bufDescTable[..])[fid := BufDesc.Assigned(k)];
      assert bufPool[..] == old(bufPool[..])[fid := disk[k]];
    }

    /** A client changes a page through the frame it has pinned. */
    method Write(fid: FrameId, body: Body)
      requires Valid() && fid < bufDescTable.Length && bufDescTable[fid].valid && bufDescTable[fid].pinCnt > 0
      modifies this`unsaved, bufPool
      ensures Valid() && Contents() == old(Contents())[bufDescTable[fid].Key() := body]
      ensures bufPool[..] == old(bufPool[..])[fid := old(bufPool[fid]).(body := body)]
      ensures unsaved == old(unsaved) + {fid}
    {
      WriteSound(bufDescTable[..], bufPool[..], hashTable.bindings, disk, unsaved, fid, body);
      bufPool[fid] := bufPool[fid].(body := body);
      unsaved := unsaved + {fid};
      assert bufPool[..] == old(bufPool[..])[fid := old(bufPool[fid]).(body := body)];
    }

    /** The last client to let go of a page somebody changed says so. */
    ghost predicate MayUnPin(k: PageKey, isDirty: bool)
      reads this, bufDescTable, hashTable
    {
      k in hashTable.bindings && hashTable.bindings[k] < bufDescTable.Length && hashTable.bindings[k] in unsaved ==>
        isDirty || bufDescTable[hashTable.bindings[k]].dirty || bufDescTable[hashTable.bindings[k]].pinCnt > 1
    }

    /** Gives one pin back (lines 134-151). A change is no longer safe in the pool exactly
        when the client that lets go of it last fails to say that it made one. */
    method UnPinPage(k: PageKey, isDirty: bool) returns (out: Outcome)
      requires Valid()
      modifies this`unsaved, bufDescTable
      ensures (Valid() <==> old(MayUnPin(k, isDirty))) && Contents() == old(Contents())
      ensures out == if k in hashTable.bindings && old(Pins(k)) == 0 then PageNotPinned else Ok
      ensures k in hashTable.bindings && out == Ok ==>
        var fid := hashTable.bindings[k];
        && fid < bufDescTable.Length && old(bufDescTable[fid]).pinCnt > 0 && Pins(k) == old(Pins(k)) - 1
        && (bufDescTable[fid].dirty <==> old(bufDescTable[fid].dirty) || isDirty)
        && bufDescTable[fid] == old(bufDescTable[fid]).(pinCnt := Pins(k), dirty := bufDescTable[fid].dirty)
        && forall f :: 0 <= f < bufDescTable.Length && f != fid ==> bufDescTable[f] == old(bufDescTable[f])
      ensures unsaved == if k in hashTable.bindings && out == Ok && isDirty then old(unsaved) - {hashTable.bindings[k]}
                         else old(unsaved)
      ensures k !in hashTable.bindings || out != Ok ==> bufDescTable[..] == old(bufDescTable[..])
      ensures k in hashTable.bindings ==> PinnedStayBut(hashTable.bindings[k])
    {
      hide Sound, Logical;
      var found, fid := hashTable.Lookup(k);
      if found {
        BoundFrame(bufDescTable[..], bufPool[..], hashTable.bindings, disk, unsaved, k);
        if bufDescTable[fid].pinCnt == 0 {
          return PageNotPinned;
        }
        var d := Unpinned(bufDescTable[fid], isDirty);
        ghost var unsaved1 := if isDirty then unsaved - {fid} else unsaved;
        DescSound(bufDescTable[..], bufPool[..], hashTable.bindings, disk, unsaved, fid, d, unsaved1);
        bufDescTable[fid] := d;
        unsaved := unsaved1;
        assert bufDescTable[..] == old(bufDescTable[..])[fid := d];
      }
      return Ok;
    }

    /** A page the file hands out, pinned (lines 153-167). The file's part is given: the
        number p it picks, and the next pointers it leaves. */
    method AllocPage(file: FileName, p: PageId, next: PageId, relink: map<PageKey, PageId>)
      returns (out: Outcome, fid: FrameId)
      requires Valid() && file != "" && PageKey(file, p) !in disk
      modifies this`clockHand, this`disk, this`unsaved, bufDescTable, bufPool, hashTable.Repr
      ensures Valid() && fresh(hashTable.Repr - old(hashTable.Repr))
      ensures out == if AnyReusable(old(bufDescTable[..])) then Ok else BufferExceeded
      ensures out != Ok ==> Contents() == old(Contents()) && PinnedStay()
      ensures out == Ok ==>
        && Contents() == old(Contents())[PageKey(file, p) := ""] && PinnedStayBut(fid)
        && Shows(fid, PageKey(file, p)) && bufDescTable[fid].pinCnt == 1
      ensures Picked(out == Ok, fid)
      ensures out != Ok ==>
        && disk == old(disk) && hashTable.bindings == old(hashTable.bindings)
        && bufPool[..] == old(bufPool[..]) && unsaved == old(unsaved)
      ensures out == Ok ==>
        && old(!bufDescTable[fid].valid || bufDescTable[fid].pinCnt == 0) && unsaved == old(unsaved) - {fid}
        && bufDescTable[fid] == BufDesc(file, p, 1, false, true, true)
        && bufPool[..] == old(bufPool[..])[fid := Page(p, next, "")]
        && hashTable.bindings == Unbound(fid)[PageKey(file, p) := fid]
        && disk.Keys == old(disk).Keys + {PageKey(file, p)} && disk[PageKey(file, p)] == Page(p, next, "")
      ensures out == Ok ==> forall q :: q in old(disk) ==>
        disk[q] == GivenUp(true, fid)[q].(next := if q in relink then relink[q] else old(disk)[q].next)
    {
      hide Sound, AnyReusable, Logical, SecondChance, RelinkBy;
      var k, ok := PageKey(file, p), false;
      UnboundWhenAbsent(bufDescTable[..], bufPool[..], hashTable.bindings, disk, unsaved, k);
      ok, fid := AllocBuf();
      if !ok {
        return BufferExceeded, fid;
      }
      ghost var ds1 := bufDescTable[..];
      HandOut(k, next, relink, fid);
      SameButFrame(ds1, bufDescTable[..], fid, old(bufDescTable[fid]).(refbit := false));
      out := Ok;
    }

    /** The file's part of the allocation, and the new page in a free frame (lines 157-164). */
    method HandOut(k: PageKey, next: PageId, relink: map<PageKey, PageId>, fid: FrameId)
      requires Valid() && fid < bufDescTable.Length && !bufDescTable[fid].valid
      requires k.file != "" && k !in disk && k !in hashTable.bindings
      modifies this`disk, bufDescTable, bufPool, hashTable.Repr
      ensures Valid() && fresh(hashTable.Repr - old(hashTable.Repr)) && Contents() == old(Contents())[k := ""]
      ensures Shows(fid, k) && bufDescTable[fid].pinCnt == 1 && PinnedStayBut(fid)
      ensures bufDescTable[..] == old(bufDescTable[..])[fid := BufDesc(k.file, k.pageNo, 1, false, true, true)]
      ensures bufPool[..] == old(bufPool[..])[fid := Page(k.pageNo, next, "")]
      ensures hashTable.bindings == old(hashTable.bindings)[k := fid]
      ensures disk.Keys == old(disk).Keys + {k} && disk[k] == Page(k.pageNo, next, "")
      ensures forall q :: q in old(disk) ==>
        disk[q] == old(disk)[q].(next := if q in relink then relink[q] else old(disk)[q].next)
    {
      hide Sound, Logical, RelinkBy;
      RelinkSound(bufDescTable[..], bufPool[..], hashTable.bindings, disk, RelinkBy(disk, relink), unsaved);
      RelinkedAt(disk, relink);
      disk := RelinkBy(disk, relink);
      DiskGains(bufDescTable[..], bufPool[..], hashTable.bindings, disk, unsaved, k, Page(k.pageNo, next, ""));
      disk := disk[k := Page(k.pageNo, next, "")];
      Install(k, fid);
    }

    /** Deletes a page, cached or not (lines 198-214). */
    method DisposePage(k: PageKey, relink: map<PageKey, PageId>) returns (out: Outcome)
      requires Valid()
      modifies this`disk, this`unsaved, bufDescTable, hashTable.Repr
      ensures Valid() && fresh(hashTable.Repr - old(hashTable.Repr))
      ensures out == (if k in old(disk) then Ok else InvalidPage)
      ensures Contents() == old(Contents()) - {k} && hashTable.bindings == old(hashTable.bindings) - {k}
      ensures forall f :: 0 <= f < bufDescTable.Length ==>
        bufDescTable[f] == if k in old(hashTable.bindings) && old(hashTable.bindings)[k] == f then BufDesc.Cleared()
                           else old(bufDescTable[f])
      ensures disk.Keys == old(disk).Keys - {k} && (out != Ok ==> disk == old(disk))
      ensures out == Ok ==> forall q :: q in disk ==>
        disk[q] == old(disk)[q].(next := if q in relink then relink[q] else old(disk)[q].next)
      ensures if k in old(hashTable.bindings) then PinnedStayBut(old(hashTable.bindings)[k]) else PinnedStay()
    {
      hide Sound, Logical;
      var found, fid := hashTable.Lookup(k);
      if found {
        Forget(k, fid);
      } else if k !in disk {
        NotListed(bufDescTable[..], bufPool[..], hashTable.bindings, disk, k);
        return InvalidPage;
      }
      DiskLoses(bufDescTable[..], bufPool[..], hashTable.bindings, disk, unsaved, k);
      disk := disk - {k};
      RelinkSound(bufDescTable[..], bufPool[..], hashTable.bindings, disk, RelinkBy(disk, relink), unsaved);
      disk := RelinkBy(disk, relink);
      out := Ok;
    }

    /** Drops a cached page without writing it back (lines 203-207). */
    method Forget(k: PageKey, fid: FrameId)
      requires Valid() && k in hashTable.bindings && hashTable.bindings[k] == fid
      modifies this`unsaved, bufDescTable, hashTable.Repr
      ensures Valid() && fresh(hashTable.Repr - old(hashTable.Repr)) && k in disk
      ensures hashTable.bindings == old(hashTable.bindings) - {k} && Contents() - {k} == old(Contents()) - {k}
      ensures fid < bufDescTable.Length && bufDescTable[..] == old(bufDescTable[..])[fid := BufDesc.Cleared()]
    {
      BoundFrame(bufDescTable[..], bufPool[..], hashTable.bindings, disk, unsaved, k);
      ForgetSound(bufDescTable[..], bufPool[..], hashTable.bindings, disk, unsaved, k);
      bufDescTable[fid] := BufDesc.Cleared();
      var _ := hashTable.Remove(k);
      unsaved := unsaved - {fid};
      assert bufDescTable[..] == old(bufDescTable[..])[fid := BufDesc.Cleared()];
    }

    /** Writes out and lets go every frame of one file (lines 169-196). It stops at the
        first pinned one; the nameless file is what every free frame belongs to. */
    method FlushFile(file: FileName) returns (out: Outcome)
      requires Valid()
      modifies this`disk, this`unsaved, bufDescTable, hashTable.Repr
      ensures Valid() && fresh(hashTable.Repr - old(hashTable.Repr))
      ensures Contents() == old(Contents())
      ensures out == if PinnedIn(old(bufDescTable[..]), file) then PagePinned
                     else if file == "" && AnyFree(old(bufDescTable[..])) then BadBuffer else Ok
      ensures out == Ok ==> forall k :: k in hashTable.bindings ==> k.file != file
      ensures out == Ok ==> forall k :: k in disk && k.file == file ==> k in Contents() && disk[k].body == Contents()[k]
      ensures disk.Keys == old(disk.Keys) && forall k :: k in old(disk) ==> disk[k].next == old(disk)[k].next
      ensures forall k :: k in old(disk) && k.file != file ==> disk[k] == old(disk)[k]
      ensures out == Ok ==>
        var n := bufDescTable.Length;
        && disk == Flushed(old(bufDescTable[..]), bufPool[..], old(hashTable.bindings), old(disk), file, n)
        && hashTable.bindings == Unflushed(old(hashTable.bindings), file, n)
      ensures PinnedStay()
      ensures forall f :: 0 <= f < bufDescTable.Length && bufDescTable[f] != old(bufDescTable[f]) ==>
        old(bufDescTable[f]).file == file && old(bufDescTable[f]).pinCnt == 0 && bufDescTable[f] == BufDesc.Cleared()
    {
      hide Sound, Logical, Flushed, Unflushed, PinnedIn, AnyFree;
      ghost var ds, m := bufDescTable[..], hashTable.bindings;
      FlushNone(ds, bufPool[..], m, disk, file);
      for fid := 0 to bufDescTable.Length
        invariant Valid() && fresh(hashTable.Repr - old(hashTable.Repr)) && Contents() == old(Contents())
        invariant disk == Flushed(ds, bufPool[..], m, old(disk), file, fid)
        invariant hashTable.bindings == Unflushed(m, file, fid)
        invariant forall f :: fid <= f < bufDescTable.Length ==> bufDescTable[f] == old(bufDescTable[f])
        invariant forall f :: 0 <= f < fid ==> !(bufDescTable[f].valid && bufDescTable[f].file == file)
        invariant forall f :: 0 <= f < fid && ds[f].file == file ==> ds[f].valid && ds[f].pinCnt == 0
        invariant forall f :: 0 <= f < bufDescTable.Length && bufDescTable[f] != old(bufDescTable[f]) ==>
          old(bufDescTable[f]).file == file && old(bufDescTable[f]).pinCnt == 0 && bufDescTable[f] == BufDesc.Cleared()
      {
        FlushedKeeps(ds, bufPool[..], m, old(disk), file, fid);
        FrameFacts(bufDescTable[..], bufPool[..], hashTable.bindings, disk, unsaved, fid);
        FlushStep(ds, bufPool[..], m, old(disk), old(unsaved), file, fid);
        if bufDescTable[fid].file == file {
          if !bufDescTable[fid].valid {
            NamelessFree(ds, bufPool[..], m, old(disk), old(unsaved), fid);
            return BadBuffer;
          }
          if bufDescTable[fid].pinCnt > 0 {
            InTheWay(ds, fid, file);
            return PagePinned;
          }
          GiveUp(fid);
        }
      }
      FlushedKeeps(ds, bufPool[..], m, old(disk), file, bufDescTable.Length);
      NothingInTheWay(ds, bufPool[..], m, old(disk), old(unsaved), file);
      FlushedToDisk(bufDescTable[..], bufPool[..], hashTable.bindings, disk, unsaved, file);
      out := Ok;
    }
  }

  /** A page pinned twice in a pool of one frame. */
  method PinTwice(k: PageKey, page: Page, hash: PageKey -> nat) returns (pool: BufMgr)
    requires k.file != "" && page.number == k.pageNo
    ensures pool.Valid() && fresh(pool) && fresh(pool.bufDescTable) && fresh(pool.hashTable.Repr)
    ensures pool.bufDescTable.Length == 1 && pool.hashTable.bindings == map[k := 0] && pool.unsaved == {}
    ensures pool.bufDescTable[0] == BufDesc(k.file, k.pageNo, 2, false, true, true) && pool.disk == map[k := page]
  {
    hide Sound, Logical, SecondChance;
    pool := new BufMgr(1, hash, map[k := page]);
    var first, fid := pool.ReadPage(k);
    assert pool.hashTable.bindings == map[k := 0] && pool.disk == map[k := page];
    var second, again := pool.ReadPage(k);
  }

  /** Unpinned twice it is pinned no more: its file can be flushed. */
  method PinnedTwice(k: PageKey, page: Page, hash: PageKey -> nat) returns (pool: BufMgr, out: Outcome)
    requires k.file != "" && page.number == k.pageNo
    ensures out == Ok && pool.Valid() && pool.disk == map[k := page]
  {
    hide Sound, Logical;
    pool := PinTwice(k, page, hash);
    var unpinned := pool.UnPinPage(k, false);
    unpinned := pool.UnPinPage(k, false);
    assert pool.bufDescTable[0].pinCnt == 0;
    out := pool.FlushFile(k.file);
  }

  /** A page read into a pool of two frames and changed there. */
  method ReadAndChanged(file: FileName, hash: PageKey -> nat) returns (pool: BufMgr, one: FrameId)
    requires file != ""
    ensures pool.Valid() && fresh(pool) && fresh(pool.bufDescTable) && fresh(pool.bufPool) && fresh(pool.hashTable.Repr)
    ensures pool.disk == map[PageKey(file, 1) := Page(1, 0, "old")]
    ensures pool.bufDescTable.Length == pool.bufPool.Length == 2 && one < 2 && !pool.bufDescTable[1 - one].valid
    ensures pool.hashTable.bindings == map[PageKey(file, 1) := one] && pool.bufPool[one] == Page(1, 0, "new")
    ensures pool.bufDescTable[one] == BufDesc(file, 1, 1, false, true, true)
  {
    hide Sound, Logical, SecondChance;
    var first := PageKey(file, 1);
    pool := new BufMgr(2, hash, map[first := Page(1, 0, "old")]);
    var out;
    out, one := pool.ReadPage(first);
    assert pool.disk == map[first := Page(1, 0, "old")] && pool.hashTable.bindings == map[first := one];
    pool.Write(one, "new");
  }

  /** Meanwhile the file links a new page in behind it. */
  method LinkBehind(pool: BufMgr, one: FrameId, file: FileName) returns (two: FrameId)
    requires file != "" && pool.Valid() && pool.disk == map[PageKey(file, 1) := Page(1, 0, "old")]
    requires pool.bufDescTable.Length == pool.bufPool.Length == 2 && one < 2 && !pool.bufDescTable[1 - one].valid
    requires pool.hashTable.bindings == map[PageKey(file, 1) := one] && pool.bufPool[one] == Page(1, 0, "new")
    requires pool.bufDescTable[one].valid && pool.bufDescTable[one].pinCnt == 1
    modifies pool, pool.bufDescTable, pool.bufPool, pool.hashTable.Repr
    ensures pool.Valid() && fresh(pool.hashTable.Repr - old(pool.hashTable.Repr)) && two == 1 - one
    ensures pool.disk == map[PageKey(file, 1) := Page(1, 2, "old"), PageKey(file, 2) := Page(2, 0, "")]
    ensures pool.hashTable.bindings == map[PageKey(file, 1) := one, PageKey(file, 2) := two]
    ensures pool.bufPool[one] == Page(1, 0, "new") && pool.bufPool[two] == Page(2, 0, "")
    ensures pool.bufDescTable[one].pinCnt == pool.bufDescTable[two].pinCnt == 1
  {
    hide Sound, Logical, SecondChance, AnyReusable;
    AnyReusableIs(pool.bufDescTable[..]);
    assert !pool.bufDescTable[..][1 - one].valid;
    var out;
    out, two := pool.AllocPage(file, 2, 0, map[PageKey(file, 1) := 2]);
    TwoKeys(PageKey(file, 1), PageKey(file, 2), pool.disk, Page(1, 2, "old"), Page(2, 0, ""));
  }

  lemma TwoKeys<T>(a: PageKey, b: PageKey, m: map<PageKey, T>, x: T, y: T)
    requires a != b && m.Keys == {a, b} && m[a] == x && m[b] == y
    ensures m == map[a := x, b := y]
  {
  }

  /** Both unpinned dirty and flushed: the change is written and the link is kept. */
  method FlushBoth(pool: BufMgr, one: FrameId, two: FrameId, file: FileName) returns (out: Outcome)
    requires file != "" && pool.Valid() && pool.bufDescTable.Length == pool.bufPool.Length == 2
    requires one < 2 && two == 1 - one
    requires pool.disk == map[PageKey(file, 1) := Page(1, 2, "old"), PageKey(file, 2) := Page(2, 0, "")]
    requires pool.hashTable.bindings == map[PageKey(file, 1) := one, PageKey(file, 2) := two]
    requires pool.bufPool[one] == Page(1, 0, "new") && pool.bufPool[two] == Page(2, 0, "")
    requires pool.bufDescTable[one].pinCnt == pool.bufDescTable[two].pinCnt == 1
    modifies pool, pool.bufDescTable, pool.hashTable.Repr
    ensures out == Ok && pool.Valid()
    ensures pool.disk == map[PageKey(file, 1) := Page(1, 2, "new"), PageKey(file, 2) := Page(2, 0, "")]
  {
    hide Sound, Logical, Flushed, Unflushed, PinnedIn, AnyFree;
    var unpinned := pool.UnPinPage(PageKey(file, 1), true);
    unpinned := pool.UnPinPage(PageKey(file, 2), true);
    ghost var ds, disk := pool.bufDescTable[..], pool.disk;
    NoPins(ds, file);
    out := pool.FlushFile(file);
    FlushedTwo(ds, pool.bufPool[..], disk, file, one, two);
  }

  /** A page changed in the pool while the file links a new page in behind it: the disk ends
      up with the change and the link. */
  method LinkSurvivesFlush(file: FileName, hash: PageKey -> nat) returns (pool: BufMgr, out: Outcome)
    requires file != ""
    ensures out == Ok && pool.Valid()
    ensures pool.disk == map[PageKey(file, 1) := Page(1, 2, "new"), PageKey(file, 2) := Page(2, 0, "")]
  {
    hide Sound, Logical;
    var one;
    pool, one := ReadAndChanged(file, hash);
    var two := LinkBehind(pool, one, file);
    out := FlushBoth(pool, one, two, file);
  }

  lemma NoPins(ds: seq<BufDesc>, file: FileName)
    requires forall f :: 0 <= f < |ds| ==> ds[f].pinCnt == 0
    ensures !PinnedIn(ds, file)
  {
  }

  lemma FlushedTwo(ds: seq<BufDesc>, pool: seq<Page>, disk: Disk, file: FileName, one: FrameId, two: FrameId)
    requires |ds| == |pool| == 2 && one < 2 && two < 2 && ds[one].dirty && ds[two].dirty
    requires disk == map[PageKey(file, 1) := Page(1, 2, "old"), PageKey(file, 2) := Page(2, 0, "")]
    requires pool[one] == Page(1, 0, "new") && pool[two] == Page(2, 0, "")
    ensures Flushed(ds, pool, map[PageKey(file, 1) := one, PageKey(file, 2) := two], disk, file, 2)
         == map[PageKey(file, 1) := Page(1, 2, "new"), PageKey(file, 2) := Page(2, 0, "")]
  {
  }
}
