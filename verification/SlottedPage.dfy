/** The slotted page, mutated in place (p3/src/page.cpp): one byte array that holds the
    slot directory at its low end and the records at its high end. */
module SlottedPage {
  import opened Storage
  import opened SlotDirectory

  /** Page::DATA_SIZE; the class works for any size a 16-bit offset can address. */
  const DATA_SIZE: nat := 8192 - 16

  datatype InsertOutcome = Inserted(rid: RecordId) | InsufficientSpace | SlotInUse

  datatype SlotOutcome = Stored | NoSuchSlot | Occupied

  datatype ReadOutcome = Record(bytes: seq<Byte>) | InvalidRecord

  datatype UpdateOutcome = Updated | NotARecord | TooLong

  class Page {
    const data: array<Byte>
    var lower: nat
    var upper: nat
    var numSlots: nat
    var numFreeSlots: nat
    var pageNumber: PageId
    var nextPageNumber: PageId

    ghost predicate Valid()
      reads this, data
    {
      Laid(data[..], lower, upper, numSlots, numFreeSlots) && Trimmed(Slots())
    }

    /** A valid page whose empty records, too, lie at the boundaries between the others. */
    ghost predicate Tidy()
      reads this, data
    {
      Valid() && Tiled(Slots(), upper, data.Length)
    }

    ghost function Slots(): (dir: seq<Slot>)
      requires SLOT_SIZE * numSlots <= data.Length
      reads this, data
    {
      Directory(data[..], numSlots)
    }

    ghost function Records(): map<SlotId, seq<Byte>>
      requires SLOT_SIZE * numSlots <= data.Length
      reads this, data
    {
      RecordsOf(Slots(), data[..])
    }

    constructor (dataSize: nat)
      requires dataSize < 0x1_0000
      ensures Tidy() && Records() == map[] && fresh(data) && data.Length == dataSize
      ensures lower == 0 && upper == dataSize && numSlots == numFreeSlots == 0
      ensures pageNumber == nextPageNumber == INVALID_NUMBER
      ensures forall p :: 0 <= p < dataSize ==> data[p] == 0
    {
      lower, upper, numSlots, numFreeSlots := 0, dataSize, 0, 0;
      pageNumber, nextPageNumber := INVALID_NUMBER, INVALID_NUMBER;
      data := new Byte[dataSize](_ => 0);
    }

    function FreeSpace(): nat
      requires lower <= upper
      reads this
    {
      upper - lower
    }

    /** Bytes an insertion needs: the record, and a new slot when none is unused. */
    function SpaceFor(record: seq<Byte>): nat
      reads this
    {
      |record| + if numFreeSlots == 0 then SLOT_SIZE else 0
    }

    function GetSlot(k: nat): Slot
      requires SLOT_SIZE * k + SLOT_SIZE <= data.Length
      reads data
    {
      SlotAt(data[..], k)
    }

    /** Stores a slot's fields; the padding byte keeps its value. */
    method PutSlot(k: nat, s: Slot)
      requires SLOT_SIZE * k + SLOT_SIZE <= data.Length && s.offset < 0x1_0000 && s.length < 0x1_0000
      modifies data
      ensures SlotAt(data[..], k) == s
      ensures var b := 6 * k;
        && data[b] == (if s.used then 1 else 0) && data[b + 1] == old(data[b + 1])
        && data[b + 2] as int + 256 * (data[b + 3] as int) == s.offset
        && data[b + 4] as int + 256 * (data[b + 5] as int) == s.length
      ensures forall p :: 0 <= p < data.Length && (p < SLOT_SIZE * k || p >= SLOT_SIZE * k + SLOT_SIZE) ==>
        data[p] == old(data[p])
    {
      var b := SLOT_SIZE * k;
      data[b] := if s.used then 1 else 0;
      data[b + 2], data[b + 3] := s.offset % 256, s.offset / 256;
      data[b + 4], data[b + 5] := s.length % 256, s.length / 256;
    }

    /** validateRecordId; slot numbers outside the directory are the caller's fault. */
    method ValidateRecordId(rid: RecordId) returns (ok: bool)
      requires Valid()
      requires rid.pageNumber == pageNumber ==> 1 <= rid.slotNumber <= numSlots
      ensures ok <==> rid.pageNumber == pageNumber && rid.slotNumber in Records()
      ensures ok ==> Holds(Slots(), data[..], rid.slotNumber) && Slots()[rid.slotNumber - 1].used
    {
      if rid.pageNumber != pageNumber {
        return false;
      }
      if Slots()[rid.slotNumber - 1].used {
        SlotHeld(data[..], lower, upper, numSlots, numFreeSlots, rid.slotNumber);
      }
      return GetSlot(rid.slotNumber - 1).used;
    }

    method GetRecord(rid: RecordId) returns (o: ReadOutcome)
      requires Valid()
      requires rid.pageNumber == pageNumber ==> 1 <= rid.slotNumber <= numSlots
      ensures o == if rid.pageNumber == pageNumber && rid.slotNumber in Records() then Record(Records()[rid.slotNumber])
                   else InvalidRecord
    {
      hide Packed, FreeCount, Trimmed, SlotAt;
      var ok := ValidateRecordId(rid);
      if !ok {
        return InvalidRecord;
      }
      var slot := GetSlot(rid.slotNumber - 1);
      return Record(data[slot.offset..slot.offset + slot.length]);
    }

    /** The lowest unused slot, or a new one at the end of the directory. */
    method GetAvailableSlot() returns (slotNumber: SlotId)
      requires Laid(data[..], lower, upper, numSlots, numFreeSlots)
      requires numFreeSlots == 0 ==> lower + SLOT_SIZE <= upper
      modifies this`lower, this`numSlots, this`numFreeSlots
      ensures old(numFreeSlots) > 0 ==>
        numSlots == old(numSlots) && numFreeSlots == old(numFreeSlots) && lower == old(lower)
      ensures old(numFreeSlots) > 0 ==> slotNumber <= numSlots
      ensures old(numFreeSlots) == 0 ==>
        slotNumber == numSlots == old(numSlots) + 1 && numFreeSlots == 1 && lower == SLOT_SIZE * numSlots
      ensures slotNumber == FirstUnused(Directory(data[..], old(numSlots)))
    {
      slotNumber := INVALID_SLOT;
      if numFreeSlots > 0 {
        var i := 1;
        FreeCountZero(Slots());
        while i <= numSlots && slotNumber == INVALID_SLOT
          invariant SLOT_SIZE * numSlots <= data.Length
          invariant 1 <= i <= numSlots + 1
          invariant slotNumber == INVALID_SLOT ==> forall j :: 0 <= j < i - 1 ==> Slots()[j].used
          invariant slotNumber != INVALID_SLOT ==>
            && slotNumber <= numSlots && !Slots()[slotNumber - 1].used
            && forall j :: 0 <= j < slotNumber - 1 ==> Slots()[j].used
        {
          if !GetSlot(i - 1).used {
            slotNumber := i;
          }
          i := i + 1;
        }
        FirstUnusedIs(Slots(), slotNumber);
      } else {
        FreeCountZero(Slots());
        FirstUnusedIs(Slots(), numSlots + 1);
        slotNumber := numSlots + 1;
        numSlots := numSlots + 1;
        numFreeSlots := numFreeSlots + 1;
        lower := SLOT_SIZE * numSlots;
      }
    }

    /** Writes a record at the top of the free space and points a slot at it. */
    method InsertRecordInSlot(slotNumber: SlotId, record: seq<Byte>) returns (o: SlotOutcome)
      requires data.Length < 0x1_0000 && lower == SLOT_SIZE * numSlots <= upper <= data.Length
      requires |record| <= upper - lower && numFreeSlots > 0
      modifies this`upper, this`numFreeSlots, data
      ensures o == if slotNumber > numSlots || slotNumber == INVALID_SLOT then NoSuchSlot
                   else if old(Slots()[slotNumber - 1].used) then Occupied else Stored
      ensures !o.Stored? ==> upper == old(upper) && numFreeSlots == old(numFreeSlots) && data[..] == old(data[..])
      ensures o.Stored? ==> upper == old(upper) - |record| && numFreeSlots == old(numFreeSlots) - 1
      ensures o.Stored? ==> Slots() == old(Slots())[slotNumber - 1 := Slot(true, upper, |record|)]
      ensures o.Stored? ==> data[upper..old(upper)] == record
      ensures forall p :: lower <= p < data.Length && !(upper <= p < old(upper)) ==> data[p] == old(data[p])
    {
      if slotNumber > numSlots || slotNumber == INVALID_SLOT {
        return NoSuchSlot;
      }
      if GetSlot(slotNumber - 1).used {
        return Occupied;
      }
      ghost var d := data[..];
      PutSlot(slotNumber - 1, Slot(true, upper - |record|, |record|));
      PutDirectory(d, data[..], numSlots, slotNumber - 1);
      upper := upper - |record|;
      numFreeSlots := numFreeSlots - 1;
      CopyIn(upper, record);
      o := Stored;
    }

    /** Copies bytes into the data area, above the directory. */
    method CopyIn(at: nat, bytes: seq<Byte>)
      requires SLOT_SIZE * numSlots <= at && at + |bytes| <= data.Length
      modifies data
      ensures data[at..at + |bytes|] == bytes
      ensures forall p :: 0 <= p < data.Length && !(at <= p < at + |bytes|) ==> data[p] == old(data[p])
      ensures Slots() == old(Slots())
    {
      var i := 0;
      while i < |bytes|
        invariant i <= |bytes|
        invariant forall q :: at <= q < at + i ==> data[q] == bytes[q - at]
        invariant forall p :: 0 <= p < data.Length && !(at <= p < at + i) ==> data[p] == old(data[p])
      {
        data[i + at] := bytes[i];
        i := i + 1;
      }
      SameDirectory(old(data[..]), data[..], numSlots);
    }

    /** Stores a record in a slot of a page whose free space is free, unless the slot is in use. */
    method StoreIn(slotNumber: SlotId, record: seq<Byte>) returns (ok: bool)
      requires data.Length < 0x1_0000 && lower == SLOT_SIZE * numSlots <= upper <= data.Length
      requires 1 <= slotNumber <= numSlots && |record| <= upper - lower && numFreeSlots > 0
      requires !Slots()[slotNumber - 1].used ==>
        && Counted(data[..], lower, upper, numSlots, numFreeSlots) && Above(Slots(), upper, data.Length)
        && (Trimmed(Slots()) || slotNumber == numSlots)
      modifies this`upper, this`numFreeSlots, data
      ensures ok <==> !old(Slots()[slotNumber - 1].used)
      ensures !ok ==> upper == old(upper) && numFreeSlots == old(numFreeSlots) && data[..] == old(data[..])
      ensures ok ==>
        slotNumber !in old(Records()) && Records() == old(Records())[slotNumber := record] && Trimmed(Slots())
      ensures ok ==> (Valid() <==> old(Laid(data[..], lower, upper, numSlots, numFreeSlots)))
      ensures ok && old(Tiled(Slots(), upper, data.Length)) ==> Tiled(Slots(), upper, data.Length)
      ensures ok ==> upper == old(upper) - |record| && numFreeSlots == old(numFreeSlots) - 1
      ensures ok ==>
        Slots() == old(Slots())[slotNumber - 1 := Slot(true, upper, |record|)] && data[upper..old(upper)] == record
      ensures forall p :: lower <= p < data.Length && !(upper <= p < old(upper)) ==> data[p] == old(data[p])
    {
      hide Tiled, Packed, FreeCount, RecordsOf, Trimmed, Word, Directory, Above;
      ghost var d, up := data[..], upper;
      var stored := InsertRecordInSlot(slotNumber, record);
      ok := stored == Stored;
      if ok {
        StoreKeeps(d, data[..], up, numSlots, numFreeSlots + 1, slotNumber - 1, record);
      }
    }

    /** Stores a record under a new slot number. A page out of unused slots extends the
        directory over the next free bytes. It finds the new slot in use exactly when the
        byte there, left by an earlier compaction, is not zero; and it stays well formed
        exactly when no empty record was left in those bytes. */
    method InsertRecord(record: seq<Byte>) returns (o: InsertOutcome)
      requires Valid()
      modifies this`lower, this`upper, this`numSlots, this`numFreeSlots, data
      ensures o.InsufficientSpace? <==> |record| + (if old(numFreeSlots) == 0 then 6 else 0) > old(upper - lower)
      ensures o.InsufficientSpace? ==> unchanged(this) && data[..] == old(data[..])
      ensures o.SlotInUse? <==> !o.InsufficientSpace? && old(numFreeSlots) == 0 && old(data[lower]) != 0
      ensures o.SlotInUse? ==> !Valid()
      ensures o.Inserted? ==> (Valid() <==> old(numFreeSlots > 0 || NoneIn(Slots(), lower, lower + SLOT_SIZE)))
      ensures o.Inserted? && old(Tidy()) ==> Tidy()
      ensures o.Inserted? ==> o.rid.pageNumber == pageNumber && o.rid.slotNumber !in old(Records())
      ensures o.Inserted? ==>
        lower == SLOT_SIZE * numSlots <= data.Length && Records() == old(Records())[o.rid.slotNumber := record]
      ensures o.Inserted? && old(numFreeSlots) == 0 ==> o.rid.slotNumber == numSlots
      ensures o.Inserted? ==> o.rid.slotNumber == old(FirstUnused(Slots())) && upper == old(upper) - |record|
      ensures o.Inserted? && old(numFreeSlots) == 0 ==> numSlots == old(numSlots) + 1 && numFreeSlots == 0
      ensures o.Inserted? && old(numFreeSlots) > 0 ==>
        numSlots == old(numSlots) && numFreeSlots == old(numFreeSlots) - 1
      ensures o.Inserted? ==>
        && Slots() == Filled(old(Slots()), o.rid.slotNumber, Slot(true, upper, |record|))
        && data[upper..old(upper)] == record
      ensures forall p :: lower <= p < data.Length && !(upper <= p < old(upper)) ==> data[p] == old(data[p])
    {
      hide Tiled, Packed, Above, NoneIn, FreeCount, RecordsOf, FirstUnused, Trimmed, Word, Directory, Filled;
      if SpaceFor(record) > FreeSpace() {
        return InsufficientSpace;
      }
      ghost var d, n := data[..], numSlots;
      PackedAbove(Slots(), lower, upper, data.Length);
      if Tidy() {
        TiledNone(Slots(), upper, data.Length, lower, if numFreeSlots == 0 then lower + SLOT_SIZE else lower);
      }
      var slotNumber := GetAvailableSlot();
      if n < numSlots {
        GrowKeeps(d, upper, n);
      }
      var ok := StoreIn(slotNumber, record);
      if !ok {
        return SlotInUse;
      }
      FilledIs(d, n, numSlots, slotNumber, Slot(true, upper, |record|));
      o := Inserted(RecordId(pageNumber, slotNumber));
    }

    /** Clears bytes of the data area (lines 80-81). */
    method Blank(offset: nat, length: nat)
      requires SLOT_SIZE * numSlots <= offset && offset + length <= data.Length
      modifies data
      ensures forall p: nat :: p < data.Length ==> data[p] == if offset <= p < offset + length then 0 else old(data[p])
      ensures Slots() == old(Slots())
    {
      var i := 0;
      while i < length
        invariant i <= length
        invariant forall p :: 0 <= p < data.Length ==> data[p] == if offset <= p < offset + i then 0 else old(data[p])
      {
        data[i + offset] := 0;
        i := i + 1;
      }
      SameDirectory(old(data[..]), data[..], numSlots);
    }

    /** Rewrites one slot's offset. */
    method SetOffset(k: nat, offset: nat)
      requires k < numSlots && SLOT_SIZE * numSlots <= data.Length && offset < 0x1_0000
      modifies data
      ensures Slots() == old(Slots())[k := old(Slots())[k].(offset := offset)]
      ensures forall p :: SLOT_SIZE * numSlots <= p < data.Length ==> data[p] == old(data[p])
    {
      ghost var d := data[..];
      PutSlot(k, GetSlot(k).(offset := offset));
      PutDirectory(d, data[..], numSlots, k);
    }

    /** Redirects every record below slot k's to where it will be once the hole is closed,
        and finds which bytes to move (lines 86-99). */
    method MoveOffsets(k: nat) returns (moveOffset: nat, moveBytes: nat)
      requires Laid(data[..], lower, upper, numSlots, numFreeSlots) && k < numSlots && Slots()[k].used
      modifies data
      ensures Slots() == MovedUpTo(old(Slots()), k, numSlots)
      ensures forall p :: lower <= p < data.Length ==> data[p] == old(data[p])
      ensures moveOffset == LeastBelow(old(Slots()), old(Slots()[k].offset), numSlots)
      ensures moveBytes == SumBelow(old(Slots()), old(Slots()[k].offset), numSlots)
    {
      hide Packed, FreeCount, SlotAt, Directory, MovedUpTo, LeastBelow, SumBelow;
      ghost var dir := Slots();
      MovedNone(dir, k);
      var hole := GetSlot(k);
      moveOffset, moveBytes := hole.offset, 0;
      var i := 1;
      while i <= numSlots
        invariant 1 <= i <= numSlots + 1
        invariant Slots() == MovedUpTo(dir, k, i - 1)
        invariant forall p :: lower <= p < data.Length ==> data[p] == old(data[p])
        invariant moveOffset == LeastBelow(dir, hole.offset, i - 1) && moveBytes == SumBelow(dir, hole.offset, i - 1)
      {
        moveOffset, moveBytes := MoveOffset(dir, k, hole, i - 1, moveOffset, moveBytes);
        i := i + 1;
      }
    }

    /** One turn of that loop: slot i, and what the turns before it have found. */
    method MoveOffset(ghost dir: seq<Slot>, ghost k: nat, hole: Slot, i: nat, least: nat, sum: nat)
      returns (moveOffset: nat, moveBytes: nat)
      requires SLOT_SIZE * numSlots <= data.Length < 0x1_0000 && |dir| == numSlots && k < numSlots && i < numSlots
      requires Packed(dir, lower, upper, data.Length) && dir[k].used && hole == dir[k]
      requires Slots() == MovedUpTo(dir, k, i)
      requires least == LeastBelow(dir, hole.offset, i) && sum == SumBelow(dir, hole.offset, i)
      modifies data
      ensures Slots() == MovedUpTo(dir, k, i + 1)
      ensures moveOffset == LeastBelow(dir, hole.offset, i + 1) && moveBytes == SumBelow(dir, hole.offset, i + 1)
      ensures forall p :: SLOT_SIZE * numSlots <= p < data.Length ==> data[p] == old(data[p])
    {
      hide Packed, SlotAt, MovedUpTo, LeastBelow, SumBelow;
      moveOffset, moveBytes := least, sum;
      var other := GetSlot(i);
      MovedNext(dir, k, i);
      if other.used && other.offset < hole.offset {
        MovedFits(dir, k, i, lower, upper, data.Length);
        SetOffset(i, other.offset + hole.length);
        if other.offset < moveOffset {
          moveOffset := other.offset;
        }
        moveBytes := moveBytes + other.length;
      }
    }

    /** Moves bytes of the data area up, through a copy (lines 101-106). */
    method ShiftRight(from: nat, count: nat, distance: nat)
      requires SLOT_SIZE * numSlots <= from && from + count + distance <= data.Length
      modifies data
      ensures forall p: nat :: p < data.Length ==> data[p] == Shifted(old(data[..]), from, count, distance, p)
      ensures Slots() == old(Slots())
    {
      if count > 0 {
        var dataToMove := data[from..from + count];
        var i := 0;
        while i < count
          invariant i <= count
          invariant forall p :: 0 <= p < data.Length ==>
            data[p] == old(if from + distance <= p < from + distance + i then data[p - distance] else data[p])
        {
          data[i + from + distance] := dataToMove[i];
          i := i + 1;
        }
        SameDirectory(old(data[..]), data[..], numSlots);
      }
    }

    /** Deletes slot k's record and closes the hole. */
    method CloseHole(k: nat)
      requires Laid(data[..], lower, upper, numSlots, numFreeSlots) && k < numSlots && Slots()[k].used
      modifies this`upper, this`numFreeSlots, data
      ensures Slots() == Removed(old(Slots()), k)
      ensures upper == old(upper) + old(Slots()[k].length) && numFreeSlots == old(numFreeSlots) + 1
      ensures Laid(data[..], lower, upper, numSlots, numFreeSlots)
      ensures Compacted(old(data[..]), data[..], old(Slots()), k, lower)
      ensures Records().Keys == old(Records()).Keys - {k + 1}
      ensures old(Slots()[k].offset + Slots()[k].length) <= data.Length
      ensures Records() == old(Records()) - {k + 1} <==> Lossless(old(data[..]), old(Slots()), k, old(upper))
    {
      hide Packed, FreeCount, RecordsOf, SlotAt, Directory, Removed, Compacted, Lossless;
      ghost var d, dir, up := data[..], Slots(), upper;
      HoleInside(d, lower, upper, numSlots, numFreeSlots, k);
      var slot := GetSlot(k);
      Compact(k);
      upper := upper + slot.length;
      ghost var d1 := data[..];
      ClearSlot(k);
      SameCompacted(d, d1, data[..], dir, k, lower);
      numFreeSlots := numFreeSlots + 1;
      RemovedIs(dir, k);
      CloseKeeps(d, data[..], up, numSlots, numFreeSlots - 1, k);
    }

    /** Blanks slot k's record and moves the records below it up by its length. */
    method Compact(k: nat)
      requires Laid(data[..], lower, upper, numSlots, numFreeSlots) && k < numSlots && Slots()[k].used
      modifies data
      ensures Slots() == MovedUpTo(old(Slots()), k, numSlots)
      ensures Compacted(old(data[..]), data[..], old(Slots()), k, lower)
    {
      hide Packed, FreeCount, SlotAt, Directory, MovedUpTo, LeastBelow, SumBelow;
      HoleInside(data[..], lower, upper, numSlots, numFreeSlots, k);
      MoveRange(Slots(), k, lower, upper, data.Length);
      var slot := GetSlot(k);
      ghost var d, dir := data[..], Slots();
      Blank(slot.offset, slot.length);
      ghost var d1 := data[..];
      var moveOffset, moveBytes := MoveOffsets(k);
      ghost var d2 := data[..];
      ShiftRight(moveOffset, moveBytes, slot.length);
      CompactedIs(d, d1, d2, data[..], dir, k, lower, moveOffset, moveBytes);
    }

    /** Marks a slot unused. */
    method ClearSlot(k: nat)
      requires k < numSlots && SLOT_SIZE * numSlots <= data.Length
      modifies data
      ensures Slots() == old(Slots())[k := Slot(false, 0, 0)]
      ensures forall p :: SLOT_SIZE * numSlots <= p < data.Length ==> data[p] == old(data[p])
    {
      ghost var d := data[..];
      PutSlot(k, UNUSED);
      PutDirectory(d, data[..], numSlots, k);
    }

    /** Gives back the unused slots at the end of the directory (lines 117-135). */
    method Trim()
      requires Laid(data[..], lower, upper, numSlots, numFreeSlots) && numSlots > 0 && !Slots()[numSlots - 1].used
      modifies this`lower, this`numSlots, this`numFreeSlots
      ensures Valid() && Records() == old(Records()) && numSlots <= old(numSlots) && Slots() == old(Slots())[..numSlots]
      ensures Tiled(Slots(), upper, data.Length) <==> old(Tiled(Slots(), upper, data.Length))
      ensures numSlots == LastUsed(old(Slots()), old(numSlots) - 1)
    {
      hide Tiled, Packed, FreeCount, RecordsOf, SlotAt, LastUsed;
      var numSlotsToDelete := 1;
      var i := 1;
      while i < numSlots && !GetSlot(numSlots - i - 1).used
        invariant 1 <= i <= numSlots && numSlotsToDelete == i
        invariant forall j :: numSlots - i <= j < numSlots ==> !Slots()[j].used
      {
        numSlotsToDelete := numSlotsToDelete + 1;
        i := i + 1;
      }
      LastUsedIs(Slots(), numSlots - 1, numSlots - numSlotsToDelete);
      TrimKeeps(data[..], upper, numSlots, numFreeSlots, numSlots - numSlotsToDelete);
      numSlots := numSlots - numSlotsToDelete;
      numFreeSlots := numFreeSlots - numSlotsToDelete;
      lower := lower - SLOT_SIZE * numSlotsToDelete;
    }

    /** Closes a used slot's hole and gives back the end of the directory. */
    method CloseAndTrim(k: nat)
      requires Valid() && k < numSlots && Slots()[k].used
      modifies this`lower, this`upper, this`numSlots, this`numFreeSlots, data
      ensures Valid() && Records().Keys == old(Records()).Keys - {k + 1}
      ensures upper == old(upper + Slots()[k].length) && old(Slots()[k].offset + Slots()[k].length) <= data.Length
      ensures Records() == old(Records()) - {k + 1} <==> Lossless(old(data[..]), old(Slots()), k, old(upper))
      ensures Tiled(Slots(), upper, data.Length) <==> Tiled(Removed(old(Slots()), k), upper, data.Length)
      ensures k + 1 < old(numSlots) ==> numFreeSlots == old(numFreeSlots) + 1
      ensures numSlots == if k + 1 == old(numSlots) then LastUsed(old(Slots()), old(numSlots) - 1) else old(numSlots)
      ensures Slots() == Removed(old(Slots()), k)[..numSlots]
      ensures Compacted(old(data[..]), data[..], old(Slots()), k, old(lower))
    {
      hide Tiled, Packed, FreeCount, RecordsOf, SlotAt, Directory, Removed, Lossless, LastUsed, Trimmed, Compacted;
      RemovedUse(Slots(), k);
      CloseHole(k);
      if k + 1 == numSlots {
        Trim();
      }
    }

    /** Deletes a record. The page stays well formed and every other slot number stays
        bound, to its own record exactly when the deletion is Lossless. On a tidy page it
        always is, and the page stays tidy exactly when the slot is Deletable, which a
        page without empty records always meets. */
    method DeleteRecord(rid: RecordId) returns (ok: bool)
      requires Valid()
      requires rid.pageNumber == pageNumber ==> 1 <= rid.slotNumber <= numSlots
      modifies this`lower, this`upper, this`numSlots, this`numFreeSlots, data
      ensures ok <==> rid.pageNumber == pageNumber && rid.slotNumber in old(Records())
      ensures !ok ==> unchanged(this) && data[..] == old(data[..])
      ensures ok ==> Valid() && Records().Keys == old(Records()).Keys - {rid.slotNumber}
      ensures ok ==> upper == old(upper) + |old(Records())[rid.slotNumber]|
      ensures ok ==> (Records() == old(Records()) - {rid.slotNumber}
                      <==> Lossless(old(data[..]), old(Slots()), rid.slotNumber - 1, old(upper)))
      ensures ok && old(Tidy()) ==> Records() == old(Records()) - {rid.slotNumber}
      ensures ok && old(Tidy()) ==> (Tidy() <==> old(Deletable(Slots(), rid.slotNumber - 1)))
      ensures ok && rid.slotNumber < old(numSlots) ==> numFreeSlots == old(numFreeSlots) + 1
      ensures ok ==>
        numSlots == if rid.slotNumber == old(numSlots) then LastUsed(old(Slots()), old(numSlots) - 1) else old(numSlots)
      ensures ok ==> Slots() == Removed(old(Slots()), rid.slotNumber - 1)[..numSlots]
      ensures ok ==> Compacted(old(data[..]), data[..], old(Slots()), rid.slotNumber - 1, old(lower))
      ensures ok && old(Tidy()) ==> forall p :: old(lower) <= p < upper ==>
        data[p] == if p < old(Slots()[rid.slotNumber - 1].offset) then old(data[p]) else 0
    {
      hide Tiled, Packed, FreeCount, RecordsOf, SlotAt, Directory, Deletable, Removed, Lossless, LastUsed, Trimmed;
      hide Holds, Compacted;
      ok := ValidateRecordId(rid);
      if ok {
        var k := rid.slotNumber - 1;
        ghost var dir, d, low, up := Slots(), data[..], lower, upper;
        RecordIs(dir, d, rid.slotNumber);
        CloseAndTrim(k);
        if old(Tidy()) {
          TiledClose(dir, d, data[..], k, low, up);
        }
      }
    }

    /** Closes a used slot's hole and stores another record in that slot. */
    method Replace(k: nat, record: seq<Byte>)
      requires Valid() && k < numSlots && Slots()[k].used && |record| <= FreeSpace() + Slots()[k].length
      modifies this`upper, this`numFreeSlots, data
      ensures Valid() && upper + |record| == old(upper + Slots()[k].length) && numFreeSlots == old(numFreeSlots)
      ensures Slots() == Replaced(old(Slots()), k, old(upper), |record|)
      ensures Records().Keys == old(Records()).Keys + {k + 1} && Records()[k + 1] == record
      ensures k + 1 in old(Records()) ==>
        (Records() == old(Records())[k + 1 := record] <==> Lossless(old(data[..]), old(Slots()), k, old(upper)))
    {
      hide Tiled, Packed, FreeCount, RecordsOf, SlotAt, Directory, Removed, Lossless, Above, Trimmed, Holds, Replaced;
      hide Compacted;
      ghost var dir, up, records := Slots(), upper, Records();
      RemovedUse(dir, k);
      CloseHole(k);
      ghost var d, up1, records1 := data[..], upper, Records();
      PackedAbove(Slots(), lower, upper, data.Length);
      var stored := InsertRecordInSlot(k + 1, record);
      StoreKeeps(d, data[..], up1, numSlots, numFreeSlots + 1, k, record);
      ReplacedIs(dir, k, up, |record|);
      if k + 1 in records {
        assert records1 == records - {k + 1} <==> records1[k + 1 := record] == records[k + 1 := record] by {
          SameButOne(records, records1, k + 1, record);
        }
      }
    }

    /** Replaces a record under its own slot number. Every other slot number stays bound, to
        its own record exactly when the deletion it begins with is Lossless. A tidy page
        always is; it stays tidy exactly when the slot is Deletable or the new record
        starts where the old one did. */
    method UpdateRecord(rid: RecordId, record: seq<Byte>) returns (o: UpdateOutcome)
      requires Valid()
      requires rid.pageNumber == pageNumber ==> 1 <= rid.slotNumber <= numSlots
      modifies this`upper, this`numFreeSlots, data
      ensures o.NotARecord? <==> !(rid.pageNumber == pageNumber && rid.slotNumber in old(Records()))
      ensures o.TooLong? <==> !o.NotARecord? && |record| > old(upper - lower) + |old(Records())[rid.slotNumber]|
      ensures o.Updated? ==>
        && upper + |record| == old(upper + Slots()[rid.slotNumber - 1].length) && numFreeSlots == old(numFreeSlots)
        && Slots() == Removed(old(Slots()), rid.slotNumber - 1)[rid.slotNumber - 1 := Slot(true, upper, |record|)]
      ensures !o.Updated? ==> unchanged(this) && data[..] == old(data[..])
      ensures o.Updated? ==> Valid() && Records().Keys == old(Records()).Keys
      ensures o.Updated? ==> rid.slotNumber in Records() && Records()[rid.slotNumber] == record
      ensures o.Updated? ==> (Records() == old(Records())[rid.slotNumber := record]
                              <==> Lossless(old(data[..]), old(Slots()), rid.slotNumber - 1, old(upper)))
      ensures o.Updated? && old(Tidy()) ==> Records() == old(Records())[rid.slotNumber := record]
      ensures o.Updated? && old(Tidy()) ==>
        var hole := old(Slots()[rid.slotNumber - 1]);
        Tidy() <==> old(Deletable(Slots(), rid.slotNumber - 1)) || hole.offset + |record| == old(upper) + hole.length
    {
      hide Tiled, Packed, FreeCount, RecordsOf, SlotAt, Directory, Deletable, Removed, Lossless, Above, Trimmed, Holds;
      hide Replaced, Compacted;
      var ok := ValidateRecordId(rid);
      if !ok {
        return NotARecord;
      }
      ghost var dir, d, up := Slots(), data[..], upper;
      RecordIs(dir, d, rid.slotNumber);
      var slot := GetSlot(rid.slotNumber - 1);
      if |record| > FreeSpace() + slot.length {
        return TooLong;
      }
      Replace(rid.slotNumber - 1, record);
      if old(Tidy()) {
        TiledLossless(d, dir, rid.slotNumber - 1, up);
        UpdateTiles(dir, rid.slotNumber - 1, up, data.Length, |record|);
      }
      ReplacedIs(dir, rid.slotNumber - 1, up, |record|);
      o := Updated;
    }

    /** A page without empty records is tidy and can delete and update any of them for ever. */
    lemma NoEmptyRecords(slotNumber: SlotId)
      requires Valid() && slotNumber in Records()
      requires forall s :: s in Records() ==> Records()[s] != []
      ensures Tidy() && Deletable(Slots(), slotNumber - 1)
    {
      hide FreeCount, SlotAt, Directory, Packed, Tiled, Trimmed;
      RecordIs(Slots(), data[..], slotNumber);
      forall i | 0 <= i < numSlots && Slots()[i].used ensures Slots()[i].length > 0 {
        SlotHeld(data[..], lower, upper, numSlots, numFreeSlots, i + 1);
        RecordIs(Slots(), data[..], i + 1);
        assert Records()[i + 1] != [];
      }
      SolidTiles(Slots(), lower, upper, data.Length);
      NonEmptyDeletable(Slots(), slotNumber - 1, upper, data.Length);
    }
  }

  lemma SameButOne(m: map<SlotId, seq<Byte>>, m1: map<SlotId, seq<Byte>>, s: SlotId, record: seq<Byte>)
    requires s in m && s !in m1
    ensures m1 == m - {s} <==> m1[s := record] == m[s := record]
  {
    if m1[s := record] == m[s := record] {
      forall t | t in m1 || t in m - {s} ensures t in m1 && t in m - {s} && m1[t] == m[t] {
        assert t in m1[s := record] && m1[s := record][t] == m[s := record][t];
      }
    }
  }

  /** A record of ten bytes on a page of 32. */
  method OneRecord(ten: seq<Byte>) returns (p: Page, first: RecordId)
    requires |ten| == 10
    ensures fresh(p) && fresh(p.data) && p.Tidy() && p.data.Length == 32
    ensures p.numSlots == 1 && p.numFreeSlots == 0 && p.upper == 22 && p.data[6] == 0
    ensures p.Slots() == [Slot(true, 22, 10)] && first == RecordId(p.pageNumber, 1)
    ensures p.Records() == map[1 := ten]
  {
    hide Tiled, Packed, NoneIn, FreeCount, RecordsOf, SlotAt, FirstUnused, Directory, Trimmed;
    p := new Page(32);
    var inserted := p.InsertRecord(ten);
    first := inserted.rid;
  }

  /** Two records of ten bytes. */
  method TwoRecords() returns (p: Page, first: RecordId)
    ensures fresh(p) && fresh(p.data) && p.Tidy() && p.data.Length == 32
    ensures p.numSlots == 2 && p.numFreeSlots == 0 && p.upper == 12 && p.data[12] == 7
    ensures p.Slots() == [Slot(true, 22, 10), Slot(true, 12, 10)] && first == RecordId(p.pageNumber, 1)
    ensures 1 in p.Records() && |p.Records()[1]| == 10
  {
    hide Tiled, Packed, NoneIn, FreeCount, RecordsOf, SlotAt, FirstUnused, Directory, Trimmed, LastUsed;
    var ten := [7, 7, 7, 7, 7, 7, 7, 7, 7, 7];
    p, first := OneRecord(ten);
    var second := p.InsertRecord(ten);
    assert p.data[12..22] == ten;
  }

  /** Two records of ten bytes, the first of them deleted. */
  method CompactedPage() returns (p: Page)
    ensures fresh(p) && fresh(p.data) && p.Tidy() && p.data.Length == 32
    ensures p.numSlots == 2 && p.numFreeSlots == 1 && p.upper == 22 && p.data[12] == 7
  {
    hide Tiled, Packed, FreeCount, RecordsOf, SlotAt, FirstUnused, Directory, Trimmed, LastUsed;
    var first;
    p, first := TwoRecords();
    var deleted := p.DeleteRecord(first);
  }

  /** A run of insertions and one deletion after which a page with room for a record and
      its slot refuses it, because compaction left a byte where the slot goes. */
  method StaleByteRefusesInsert() returns (p: Page, o: InsertOutcome)
    ensures o.SlotInUse? && !p.Valid()
  {
    hide Tiled, Packed, FreeCount, RecordsOf, SlotAt, FirstUnused, Directory, Trimmed, Filled;
    p := CompactedPage();
    var reused := p.InsertRecord([1]);
    assert p.numSlots == 2 && p.numFreeSlots == 0 && p.data[12] == 7;
    o := p.InsertRecord([2]);
  }

  /** Records of two and three bytes on a page of 40. */
  method TwoOfFive() returns (p: Page)
    ensures fresh(p) && fresh(p.data) && p.data.Length == 40 && p.Tidy()
    ensures p.numSlots == 2 && p.numFreeSlots == 0 && p.upper == 35 && p.data[12] == 0
    ensures p.Slots() == [Slot(true, 38, 2), Slot(true, 35, 3)]
  {
    hide Tiled, Packed, NoneIn, FreeCount, RecordsOf, SlotAt, FirstUnused, Directory, Trimmed;
    p := new Page(40);
    var first := p.InsertRecord([1, 1]);
    assert p.Slots() == [Slot(true, 38, 2)];
    var second := p.InsertRecord([2, 2, 2]);
  }

  /** And an empty one. */
  method ThreeRecords() returns (p: Page)
    ensures fresh(p) && fresh(p.data) && p.data.Length == 40 && p.Tidy()
    ensures p.numSlots == 3 && p.numFreeSlots == 0 && p.upper == 35
    ensures p.Slots() == [Slot(true, 38, 2), Slot(true, 35, 3), Slot(true, 35, 0)]
  {
    hide Tiled, Packed, NoneIn, FreeCount, RecordsOf, SlotAt, FirstUnused, Directory, Trimmed;
    p := TwoOfFive();
    var third := p.InsertRecord([]);
  }

  /** The second of them deleted: the empty record, which starts where the deleted one did,
      is left behind in the free space. */
  method StrayRecord() returns (p: Page)
    ensures fresh(p) && fresh(p.data) && p.data.Length == 40 && p.Valid() && !p.Tidy()
    ensures p.numSlots == 3 && p.numFreeSlots == 1 && p.upper == 38
    ensures p.Slots() == [Slot(true, 38, 2), UNUSED, Slot(true, 35, 0)]
  {
    hide Tiled, Packed, FreeCount, RecordsOf, SlotAt, Removed, Directory, Trimmed, LastUsed, Deletable, Compacted;
    hide Lossless;
    p := ThreeRecords();
    ghost var dir := p.Slots();
    SlotHeld(p.data[..], p.lower, p.upper, 3, 0, 2);
    RecordIs(dir, p.data[..], 2);
    StraySlot(dir);
    var deleted := p.DeleteRecord(RecordId(p.pageNumber, 2));
  }

  lemma StraySlot(dir: seq<Slot>)
    requires dir == [Slot(true, 38, 2), Slot(true, 35, 3), Slot(true, 35, 0)]
    ensures Removed(dir, 1) == [Slot(true, 38, 2), UNUSED, Slot(true, 35, 0)] && !Deletable(dir, 1)
  {
    assert dir[2].used && dir[2].offset == dir[1].offset;
  }

  /** A run after which the page no longer holds what was stored: the deletion of the first
      record moves a byte of the free space and leaves the second record's behind. */
  method DeletionLosesRecord() returns (p: Page, ghost before: map<SlotId, seq<Byte>>)
    ensures p.Valid() && 2 in before && before[2] == [3]
    ensures 2 in p.Records() && p.Records()[2] == [0]
  {
    hide Tiled, Packed, FreeCount, RecordsOf, SlotAt, FirstUnused, Removed, Directory, Trimmed, LastUsed, Compacted;
    hide Lossless;
    p := StrayRecord();
    FirstUnusedIs(p.Slots(), 2);
    var stored := p.InsertRecord([3]);
    before := p.Records();
    ghost var dir, d := p.Slots(), p.data[..];
    SlotHeld(d, p.lower, p.upper, 3, 0, 1);
    var deleted := p.DeleteRecord(RecordId(p.pageNumber, 1));
    LostByte(d, p.data[..], dir);
    SlotHeld(p.data[..], p.lower, p.upper, 3, 1, 2);
    RecordIs(p.Slots(), p.data[..], 2);
  }

  lemma LostByte(d: seq<Byte>, d1: seq<Byte>, dir: seq<Slot>)
    requires dir == [Slot(true, 38, 2), Slot(true, 37, 1), Slot(true, 35, 0)] && |d| == |d1| == 40
    requires Compacted(d, d1, dir, 0, 18)
    ensures Removed(dir, 0) == [UNUSED, Slot(true, 39, 1), Slot(true, 37, 0)] && d1[39] == 0
  {
    assert LeastBelow(dir, 38, 0) == 38 && SumBelow(dir, 38, 0) == 0;
    assert LeastBelow(dir, 38, 1) == 38 && SumBelow(dir, 38, 1) == 0;
    assert LeastBelow(dir, 38, 2) == 37 && SumBelow(dir, 38, 2) == 1;
    assert LeastBelow(dir, 38, 3) == 35 && SumBelow(dir, 38, 3) == 1;
    assert d1[39] == ByteAfter(d, dir[0], LeastBelow(dir, 38, 3), SumBelow(dir, 38, 3), 39);
  }
}
