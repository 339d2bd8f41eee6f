/** What the bytes of a slotted page mean: the slot directory that grows up from byte 0,
    the records that grow down from the end, and what insertion, deletion and compaction
    do to them (p3/src/page.h:78, p3/src/page.cpp). */
module SlotDirectory {
  import opened Storage

  type Byte = b: int | 0 <= b < 256

  /** sizeof(PageSlot): a bool, a byte of padding and two 16-bit numbers. */
  const SLOT_SIZE := 6

  datatype Slot = Slot(used: bool, offset: nat, length: nat)

  const UNUSED := Slot(false, 0, 0)

  /** The slot overlaid on bytes [6i, 6i + 6); the numbers are little-endian. */
  function SlotAt(d: seq<Byte>, i: nat): Slot
    requires SLOT_SIZE * i + SLOT_SIZE <= |d|
  {
    var b := SLOT_SIZE * i;
    Slot(d[b] != 0, Word(d[b + 2], d[b + 3]), Word(d[b + 4], d[b + 5]))
  }

  function Word(low: Byte, high: Byte): nat {
    low as int + 256 * (high as int)
  }

  function Directory(d: seq<Byte>, n: nat): (dir: seq<Slot>)
    requires SLOT_SIZE * n <= |d|
    ensures |dir| == n && forall i :: 0 <= i < n ==> dir[i] == SlotAt(d, i)
  {
    seq(n, i requires 0 <= i < n => SlotAt(d, i))
  }

  /** Slots that are allocated but hold no record. */
  function FreeCount(dir: seq<Slot>): nat {
    if dir == [] then 0
    else FreeCount(dir[..|dir| - 1]) + if dir[|dir| - 1].used then 0 else 1
  }

  ghost predicate Within(s: Slot, lo: nat, hi: nat) {
    lo <= s.offset && s.offset + s.length <= hi
  }

  ghost predicate Apart(s: Slot, t: Slot) {
    s.offset + s.length <= t.offset || t.offset + t.length <= s.offset
  }

  ghost predicate Covers(s: Slot, p: int) {
    s.used && s.offset <= p < s.offset + s.length
  }

  ghost predicate Covered(dir: seq<Slot>, p: int) {
    exists i :: 0 <= i < |dir| && Covers(dir[i], p)
  }

  /** The used slots tile [upper, end): inside it, without overlap, without a gap. */
  ghost predicate Tiled(dir: seq<Slot>, upper: nat, end: nat) {
    && upper <= end
    && (forall i :: 0 <= i < |dir| && dir[i].used ==> Within(dir[i], upper, end))
    && (forall i, j :: 0 <= i < j < |dir| && dir[i].used && dir[j].used ==> Apart(dir[i], dir[j]))
    && (forall p :: upper <= p < end ==> Covered(dir, p))
  }

  /** The non-empty records tile [upper, end). Empty ones may lie anywhere above the slot
      directory, where a deletion beside them left them. */
  ghost predicate Packed(dir: seq<Slot>, lower: nat, upper: nat, end: nat) {
    && lower <= upper <= end
    && (forall i :: 0 <= i < |dir| && dir[i].used ==> Within(dir[i], if dir[i].length > 0 then upper else lower, end))
    && (forall i, j :: 0 <= i < j < |dir| && Solid(dir[i]) && Solid(dir[j]) ==> Apart(dir[i], dir[j]))
    && (forall p :: upper <= p < end ==> Covered(dir, p))
  }

  ghost predicate Solid(s: Slot) {
    s.used && s.length > 0
  }

  /** The page header agrees with the directory. */
  ghost predicate Counted(d: seq<Byte>, lower: nat, upper: nat, numSlots: nat, numFree: nat) {
    && |d| < 0x1_0000
    && lower == SLOT_SIZE * numSlots <= upper <= |d|
    && numFree == FreeCount(Directory(d, numSlots))
  }

  /** And the records fill the rest of the page. */
  ghost predicate Laid(d: seq<Byte>, lower: nat, upper: nat, numSlots: nat, numFree: nat) {
    Counted(d, lower, upper, numSlots, numFree) && Packed(Directory(d, numSlots), lower, upper, |d|)
  }

  /** The last slot is in use: trailing unused slots are always given back. */
  ghost predicate Trimmed(dir: seq<Slot>) {
    dir != [] ==> dir[|dir| - 1].used
  }

  ghost predicate Holds(dir: seq<Slot>, d: seq<Byte>, s: SlotId) {
    1 <= s <= |dir| && dir[s - 1].used && dir[s - 1].offset + dir[s - 1].length <= |d|
  }

  ghost function RecordIn(d: seq<Byte>, s: Slot): (r: seq<Byte>)
    requires s.offset + s.length <= |d|
  {
    d[s.offset..s.offset + s.length]
  }

  /** The page's meaning: a map from slot number to record. */
  ghost function RecordsOf(dir: seq<Slot>, d: seq<Byte>): map<SlotId, seq<Byte>> {
    map s: SlotId | 1 <= s <= |dir| && Holds(dir, d, s) :: RecordIn(d, dir[s - 1])
  }

  /** Directories read from bytes that agree are equal. */
  lemma SameDirectory(d: seq<Byte>, d1: seq<Byte>, n: nat)
    requires |d| == |d1| && SLOT_SIZE * n <= |d|
    requires forall p :: 0 <= p < SLOT_SIZE * n ==> d[p] == d1[p]
    ensures Directory(d, n) == Directory(d1, n)
  {
  }

  /** Writing one slot's bytes writes one entry of the directory. */
  lemma PutDirectory(d: seq<Byte>, d1: seq<Byte>, n: nat, k: nat)
    requires |d| == |d1| && SLOT_SIZE * n <= |d| && k < n
    requires forall p :: 0 <= p < SLOT_SIZE * n && (p < SLOT_SIZE * k || p >= SLOT_SIZE * k + SLOT_SIZE) ==>
      d[p] == d1[p]
    ensures Directory(d1, n) == Directory(d, n)[k := SlotAt(d1, k)]
  {
  }

  lemma {:induction false} FreeCountUpdate(dir: seq<Slot>, k: nat, s: Slot)
    requires k < |dir|
    ensures FreeCount(dir[k := s]) == FreeCount(dir) + (if s.used then 0 else 1) - (if dir[k].used then 0 else 1)
  {
    var n := |dir| - 1;
    if k < n {
      FreeCountUpdate(dir[..n], k, s);
      assert dir[k := s][..n] == dir[..n][k := s];
    } else {
      assert dir[k := s][..n] == dir[..n];
    }
  }

  /** Dropping unused slots from the end drops as many from the count. */
  lemma {:induction false} FreeCountTail(dir: seq<Slot>, n: nat)
    requires n <= |dir| && forall i :: n <= i < |dir| ==> !dir[i].used
    ensures FreeCount(dir) == FreeCount(dir[..n]) + (|dir| - n)
  {
    if n < |dir| {
      var last := |dir| - 1;
      FreeCountTail(dir[..last], n);
      assert dir[..last][..n] == dir[..n];
    } else {
      assert dir[..n] == dir;
    }
  }

  /** A page with no unused slot counts none, and the other way round. */
  lemma {:induction false} FreeCountZero(dir: seq<Slot>)
    ensures FreeCount(dir) <= |dir|
    ensures FreeCount(dir) == 0 <==> forall i :: 0 <= i < |dir| ==> dir[i].used
  {
    if dir != [] {
      var n := |dir| - 1;
      FreeCountZero(dir[..n]);
      assert forall i :: 0 <= i < n ==> dir[..n][i] == dir[i];
    }
  }

  /** The directory after slot k takes a record of `length` bytes at the top of the free space. */
  lemma InsertTiles(dir: seq<Slot>, k: nat, length: nat, upper: nat, end: nat)
    requires Tiled(dir, upper, end) && k < |dir| && !dir[k].used && length <= upper
    ensures Tiled(dir[k := Slot(true, upper - length, length)], upper - length, end)
  {
    var s := Slot(true, upper - length, length);
    var dir1 := dir[k := s];
    forall p | s.offset <= p < end ensures Covered(dir1, p) {
      if p < upper {
        assert Covers(dir1[k], p);
      } else {
        assert Covered(dir, p);
        var i :| 0 <= i < |dir| && Covers(dir[i], p);
        assert Covers(dir1[i], p);
      }
    }
  }

  lemma TiledPacked(dir: seq<Slot>, lower: nat, upper: nat, end: nat)
    requires Tiled(dir, upper, end) && lower <= upper
    ensures Packed(dir, lower, upper, end)
  {
  }

  /** A record stored at the top of the free space keeps the packing, and does not mend it. */
  lemma InsertPacks(dir: seq<Slot>, k: nat, length: nat, lower: nat, upper: nat, end: nat)
    requires Above(dir, upper, end) && k < |dir| && !dir[k].used && lower + length <= upper <= end
    ensures Packed(dir[k := Slot(true, upper - length, length)], lower, upper - length, end)
      <==> Packed(dir, lower, upper, end)
  {
    var s := Slot(true, upper - length, length);
    var dir1 := dir[k := s];
    if Packed(dir, lower, upper, end) {
      forall p | s.offset <= p < end ensures Covered(dir1, p) {
        if p < upper {
          assert Covers(dir1[k], p);
        } else {
          var i := Owner(dir, p, lower, upper, end);
          assert Covers(dir1[i], p);
        }
      }
    }
    if Packed(dir1, lower, upper - length, end) {
      forall p | upper <= p < end ensures Covered(dir, p) {
        var i := Owner(dir1, p, lower, upper - length, end);
        assert Covers(dir[i], p);
      }
      assert forall i :: 0 <= i < |dir| && i != k ==> dir1[i] == dir[i];
    }
  }

  /** No empty record lies in [lo, hi). */
  ghost predicate NoneIn(dir: seq<Slot>, lo: nat, hi: nat) {
    forall i :: 0 <= i < |dir| && dir[i].used && dir[i].length == 0 ==> dir[i].offset < lo || hi <= dir[i].offset
  }

  /** The slots in use stay; the directory ends at lower1 from now on. */
  lemma ResizePacks(dir: seq<Slot>, dir1: seq<Slot>, lower: nat, lower1: nat, upper: nat, end: nat)
    requires Packed(dir, lower, upper, end) && lower1 <= upper
    requires forall i :: 0 <= i < |dir1| && dir1[i].used ==> i < |dir| && dir[i] == dir1[i]
    requires forall i :: 0 <= i < |dir| && dir[i].used ==> i < |dir1| && dir1[i] == dir[i]
    ensures Packed(dir1, lower1, upper, end) <==> NoneIn(dir, lower, lower1)
  {
    forall p | upper <= p < end ensures Covered(dir1, p) {
      assert Covered(dir, p);
      var i :| 0 <= i < |dir| && Covers(dir[i], p);
      assert Covers(dir1[i], p);
    }
    if !NoneIn(dir, lower, lower1) {
      var i :| 0 <= i < |dir| && dir[i].used && dir[i].length == 0 && lower <= dir[i].offset < lower1;
      assert dir1[i] == dir[i] && !Within(dir1[i], lower1, end);
    }
  }

  /** A slot added unused, or an unused tail dropped, leaves the tiling alone. */
  lemma ResizeTiles(dir: seq<Slot>, dir1: seq<Slot>, upper: nat, end: nat)
    requires Tiled(dir, upper, end)
    requires forall i :: 0 <= i < |dir1| && dir1[i].used ==> i < |dir| && dir[i] == dir1[i]
    requires forall i :: 0 <= i < |dir| && dir[i].used ==> i < |dir1| && dir1[i] == dir[i]
    ensures Tiled(dir1, upper, end)
  {
    forall p | upper <= p < end ensures Covered(dir1, p) {
      assert Covered(dir, p);
      var i :| 0 <= i < |dir| && Covers(dir[i], p);
      assert Covers(dir1[i], p);
    }
  }

  /** Compaction's effect on one slot: records below the hole move up by its length. */
  function Moved(s: Slot, hole: Slot): Slot {
    if s.used && s.offset < hole.offset then s.(offset := s.offset + hole.length) else s
  }

  /** The first n slots moved, the others not yet. */
  function MovedUpTo(dir: seq<Slot>, k: nat, n: nat): (r: seq<Slot>)
    requires k < |dir| && n <= |dir|
    ensures |r| == |dir|
    ensures forall i :: 0 <= i < |dir| ==> r[i] == if i < n then Moved(dir[i], dir[k]) else dir[i]
  {
    seq(|dir|, i requires 0 <= i < |dir| => if i < n then Moved(dir[i], dir[k]) else dir[i])
  }

  /** The directory after slot k's record is deleted and the hole closed. */
  function Removed(dir: seq<Slot>, k: nat): (r: seq<Slot>)
    requires k < |dir|
    ensures |r| == |dir|
  {
    MovedUpTo(dir, k, |dir|)[k := UNUSED]
  }

  /** Total length of the records among the first n slots that lie below `offset`. */
  function SumBelow(dir: seq<Slot>, offset: nat, n: nat): nat
    requires n <= |dir|
  {
    if n == 0 then 0
    else SumBelow(dir, offset, n - 1) + if dir[n - 1].used && dir[n - 1].offset < offset then dir[n - 1].length else 0
  }

  /** Least offset among the records of the first n slots, or `offset` if none is below it. */
  function LeastBelow(dir: seq<Slot>, offset: nat, n: nat): (m: nat)
    requires n <= |dir|
    ensures m <= offset
    ensures forall i :: 0 <= i < n && dir[i].used ==> m <= dir[i].offset || dir[i].offset >= offset
    ensures m == offset || exists i :: 0 <= i < n && dir[i].used && dir[i].offset == m
  {
    if n == 0 then offset
    else
      var m := LeastBelow(dir, offset, n - 1);
      if dir[n - 1].used && dir[n - 1].offset < m then dir[n - 1].offset else m
  }

  ghost function Range(lo: int, hi: int): (s: set<int>)
    requires lo <= hi
    ensures forall p :: p in s <==> lo <= p < hi
    ensures |s| == hi - lo
    decreases hi - lo
  {
    if lo == hi then {} else Range(lo, hi - 1) + {hi - 1}
  }

  /** Position p lies in one of the records SumBelow counts. */
  ghost predicate CoveredBelow(dir: seq<Slot>, offset: nat, n: nat, p: int)
    requires n <= |dir|
  {
    n > 0 && (CoveredBelow(dir, offset, n - 1, p) || (dir[n - 1].offset < offset && Covers(dir[n - 1], p)))
  }

  ghost function BytesBelow(dir: seq<Slot>, lo: nat, hi: nat, offset: nat, n: nat): set<int>
    requires n <= |dir|
  {
    set p | lo <= p < hi && CoveredBelow(dir, offset, n, p)
  }

  lemma {:induction false} CoveredBy(dir: seq<Slot>, offset: nat, n: nat, p: int, i: nat)
    requires i < n <= |dir| && dir[i].offset < offset && Covers(dir[i], p)
    ensures CoveredBelow(dir, offset, n, p)
  {
    if i < n - 1 {
      CoveredBy(dir, offset, n - 1, p, i);
    }
  }

  lemma {:induction false} SumIsSize(dir: seq<Slot>, offset: nat, n: nat, lower: nat, upper: nat, end: nat)
    requires Packed(dir, lower, upper, end) && n <= |dir|
    ensures SumBelow(dir, offset, n) == |BytesBelow(dir, upper, end, offset, n)|
  {
    hide Packed, BytesBelow, Range;
    if n == 0 {
      NoBytes(dir, upper, end, offset);
    } else {
      SumIsSize(dir, offset, n - 1, lower, upper, end);
      BytesGrow(dir, offset, n, lower, upper, end);
    }
  }

  lemma NoBytes(dir: seq<Slot>, lo: nat, hi: nat, offset: nat)
    ensures BytesBelow(dir, lo, hi, offset, 0) == {}
  {
  }

  lemma BytesGrow(dir: seq<Slot>, offset: nat, n: nat, lower: nat, upper: nat, end: nat)
    requires Packed(dir, lower, upper, end) && 0 < n <= |dir|
    ensures var s, s0 := BytesBelow(dir, upper, end, offset, n), BytesBelow(dir, upper, end, offset, n - 1);
            var t := dir[n - 1];
            if t.used && t.offset < offset then
              s == s0 + Range(t.offset, t.offset + t.length) && s0 !! Range(t.offset, t.offset + t.length)
            else s == s0
  {
    hide Packed, Covers, Range, BytesBelow, CoveredBelow;
    var t := dir[n - 1];
    var s, s0 := BytesBelow(dir, upper, end, offset, n), BytesBelow(dir, upper, end, offset, n - 1);
    forall p ensures p in s <==> p in s0 || (t.used && t.offset < offset && t.offset <= p < t.offset + t.length) {
      BytesStep(dir, offset, n, lower, upper, end, p);
    }
    if t.used && t.offset < offset {
      var r := Range(t.offset, t.offset + t.length);
      forall p ensures p in r ==> p !in s0 {
        BytesStep(dir, offset, n, lower, upper, end, p);
      }
      assert s == s0 + r && s0 !! r;
    }
  }

  lemma BytesStep(dir: seq<Slot>, offset: nat, n: nat, lower: nat, upper: nat, end: nat, p: int)
    requires Packed(dir, lower, upper, end) && 0 < n <= |dir|
    ensures var t, s0 := dir[n - 1], BytesBelow(dir, upper, end, offset, n - 1);
            var more := t.used && t.offset < offset && t.offset <= p < t.offset + t.length;
            && (p in BytesBelow(dir, upper, end, offset, n) <==> p in s0 || more)
            && !(p in s0 && more)
  {
    hide Packed;
    if dir[n - 1].used && dir[n - 1].offset < offset {
      BytesDisjoint(dir, offset, n, lower, upper, end, p);
    }
  }

  /** The bytes of one more record are new and lie above the free space. */
  lemma BytesDisjoint(dir: seq<Slot>, offset: nat, n: nat, lower: nat, upper: nat, end: nat, p: int)
    requires Packed(dir, lower, upper, end) && 0 < n <= |dir| && dir[n - 1].used && dir[n - 1].offset < offset
    ensures Covers(dir[n - 1], p) <==> dir[n - 1].offset <= p < dir[n - 1].offset + dir[n - 1].length
    ensures Covers(dir[n - 1], p) ==> upper <= p < end && !CoveredBelow(dir, offset, n - 1, p)
  {
    assert Within(dir[n - 1], if dir[n - 1].length > 0 then upper else lower, end);
    if Covers(dir[n - 1], p) {
      NotTwice(dir, n - 1, offset, n - 1, lower, upper, end, p);
    }
  }

  lemma {:induction false} NotTwice(dir: seq<Slot>, j: nat, offset: nat, n: nat, lower: nat, upper: nat, end: nat,
                                    p: int)
    requires Packed(dir, lower, upper, end) && n <= j < |dir| && Covers(dir[j], p)
    ensures !CoveredBelow(dir, offset, n, p)
  {
    if n > 0 {
      NotTwice(dir, j, offset, n - 1, lower, upper, end, p);
      assert Solid(dir[n - 1]) ==> Apart(dir[n - 1], dir[j]);
    }
  }

  /** Whom a byte belongs to. */
  lemma Owner(dir: seq<Slot>, p: nat, lower: nat, upper: nat, end: nat) returns (i: nat)
    requires Packed(dir, lower, upper, end) && upper <= p < end
    ensures i < |dir| && Covers(dir[i], p) && Solid(dir[i]) && upper <= dir[i].offset
  {
    assert Covered(dir, p);
    i :| 0 <= i < |dir| && Covers(dir[i], p);
    assert Within(dir[i], upper, end);
  }

  /** Below a non-empty record every byte back to the free space belongs to a record there. */
  lemma BytesAre(dir: seq<Slot>, k: nat, lower: nat, upper: nat, end: nat)
    requires Packed(dir, lower, upper, end) && k < |dir| && Solid(dir[k])
    ensures upper <= dir[k].offset && BytesBelow(dir, upper, end, dir[k].offset, |dir|) == Range(upper, dir[k].offset)
  {
    var hole := dir[k].offset;
    assert Within(dir[k], upper, end);
    forall p | upper <= p < end ensures CoveredBelow(dir, hole, |dir|, p) <==> p < hole {
      var i := Owner(dir, p, lower, upper, end);
      assert i != k ==> Apart(dir[i], dir[k]);
      if p < hole {
        CoveredBy(dir, hole, |dir|, p, i);
      } else {
        NotBelow(dir, hole, |dir|, i, k, lower, upper, end, p);
      }
    }
  }

  /** A byte at or past the hole belongs to no record that starts below it. */
  lemma {:induction false} NotBelow(dir: seq<Slot>, hole: nat, n: nat, i: nat, k: nat, lower: nat, upper: nat, end: nat,
                                    p: int)
    requires Packed(dir, lower, upper, end) && n <= |dir| && i < |dir| && k < |dir|
    requires Solid(dir[k]) && dir[k].offset == hole <= p && Covers(dir[i], p) && dir[i].offset >= hole
    ensures !CoveredBelow(dir, hole, n, p)
  {
    if n > 0 {
      NotBelow(dir, hole, n - 1, i, k, lower, upper, end, p);
      assert Solid(dir[n - 1]) && n - 1 != k ==> Apart(dir[n - 1], dir[k]);
    }
  }

  lemma SubsetSize(a: set<int>, b: set<int>)
    requires a <= b
    ensures |a| <= |b|
  {
    assert b == a + (b - a);
  }

  /** No record starts below the free space's end. */
  ghost predicate NoStray(dir: seq<Slot>, upper: nat) {
    forall i :: 0 <= i < |dir| && dir[i].used ==> upper <= dir[i].offset
  }

  /** The bytes to move: as many as lie between the free space and the hole, and exactly
      those when no empty record was left behind in the free space. */
  lemma MoveRange(dir: seq<Slot>, k: nat, lower: nat, upper: nat, end: nat)
    requires Packed(dir, lower, upper, end) && k < |dir| && dir[k].used
    ensures var least, sum := LeastBelow(dir, dir[k].offset, |dir|), SumBelow(dir, dir[k].offset, |dir|);
      && lower <= least && least + sum + dir[k].length <= end
      && (dir[k].length > 0 ==> least <= upper <= dir[k].offset && sum == dir[k].offset - upper)
      && (dir[k].length > 0 && NoStray(dir, upper) ==> least == upper)
  {
    hide Packed, BytesBelow, CoveredBelow, SumBelow;
    SumIsSize(dir, dir[k].offset, |dir|, lower, upper, end);
    LeastIs(dir, k, lower, upper, end);
    if dir[k].length > 0 {
      BytesAre(dir, k, lower, upper, end);
    } else {
      BytesInside(dir, dir[k].offset, upper, end);
      NoSum(dir, dir[k].offset, |dir|);
    }
  }

  lemma BytesInside(dir: seq<Slot>, offset: nat, upper: nat, end: nat)
    requires upper <= end
    ensures |BytesBelow(dir, upper, end, offset, |dir|)| <= end - upper
  {
    SubsetSize(BytesBelow(dir, upper, end, offset, |dir|), Range(upper, end));
  }

  lemma {:induction false} NoSum(dir: seq<Slot>, offset: nat, n: nat)
    requires n <= |dir|
    ensures SumBelow(dir, offset, n) > 0 ==> exists i :: 0 <= i < n && Solid(dir[i]) && dir[i].offset < offset
  {
    if n > 0 {
      NoSum(dir, offset, n - 1);
    }
  }

  /** Where the least offset lies. */
  lemma LeastIs(dir: seq<Slot>, k: nat, lower: nat, upper: nat, end: nat)
    requires Packed(dir, lower, upper, end) && k < |dir| && dir[k].used
    ensures var least := LeastBelow(dir, dir[k].offset, |dir|);
      && lower <= least && upper <= end && dir[k].offset + dir[k].length <= end
      && ((exists i :: 0 <= i < |dir| && Solid(dir[i]) && dir[i].offset < dir[k].offset) ==> least <= upper)
      && (dir[k].length > 0 ==> least <= upper <= dir[k].offset)
      && (dir[k].length > 0 && NoStray(dir, upper) ==> least == upper)
  {
    var hole := dir[k].offset;
    assert Within(dir[k], if dir[k].length > 0 then upper else lower, end);
    var least := LeastBelow(dir, hole, |dir|);
    if least < hole {
      var i :| 0 <= i < |dir| && dir[i].used && dir[i].offset == least;
      assert Within(dir[i], if dir[i].length > 0 then upper else lower, end);
    }
    if exists i :: 0 <= i < |dir| && Solid(dir[i]) && dir[i].offset < hole {
      var i :| 0 <= i < |dir| && Solid(dir[i]) && dir[i].offset < hole;
      assert Within(dir[i], upper, end);
    }
    if upper < hole {
      var j := Owner(dir, upper, lower, upper, end);
      assert dir[j].offset == upper;
    }
  }

  /** When deleting slot k leaves the page tiled: the record is empty, or no empty record
      sits at the same offset, or closing the hole happens to bring a boundary there. */
  ghost predicate Deletable(dir: seq<Slot>, k: nat)
    requires k < |dir|
  {
    var hole := dir[k];
    || hole.length == 0
    || (forall j :: 0 <= j < |dir| && j != k && dir[j].used ==> dir[j].offset != hole.offset)
    || (exists j :: 0 <= j < |dir| && dir[j].used && dir[j].offset + hole.length == hole.offset)
  }

  /** Deletion keeps the tiling exactly when the slot is Deletable. */
  lemma DeleteTiles(dir: seq<Slot>, k: nat, upper: nat, end: nat)
    requires Tiled(dir, upper, end) && k < |dir| && dir[k].used
    ensures upper + dir[k].length <= end
    ensures Tiled(Removed(dir, k), upper + dir[k].length, end) <==> Deletable(dir, k)
  {
    var hole := dir[k];
    assert Within(hole, upper, end);
    RemovedCovers(dir, k, upper, end);
    if Deletable(dir, k) {
      RemovedWithin(dir, k, upper, end);
      forall i, j | 0 <= i < j < |dir| && Removed(dir, k)[i].used && Removed(dir, k)[j].used
        ensures Apart(Removed(dir, k)[i], Removed(dir, k)[j])
      {
        RemovedApart(dir, k, upper, end, i, j);
      }
    } else {
      var z :| 0 <= z < |dir| && z != k && dir[z].used && dir[z].offset == hole.offset;
      RemovedOverlaps(dir, k, upper, end, z);
    }
  }

  lemma RemovedCovers(dir: seq<Slot>, k: nat, upper: nat, end: nat)
    requires Tiled(dir, upper, end) && k < |dir| && dir[k].used
    ensures forall p :: upper + dir[k].length <= p < end ==> Covered(Removed(dir, k), p)
  {
    var hole, dir1 := dir[k], Removed(dir, k);
    assert Within(hole, upper, end);
    forall p | upper + hole.length <= p < end ensures Covered(dir1, p) {
      var q := if p < hole.offset + hole.length then p - hole.length else p;
      assert Covered(dir, q);
      var i :| 0 <= i < |dir| && Covers(dir[i], q);
      assert i != k ==> Apart(dir[i], hole);
      assert Covers(dir1[i], p);
    }
  }

  /** The one way deletion can fail: an empty record stays inside what moves up. */
  lemma RemovedOverlaps(dir: seq<Slot>, k: nat, upper: nat, end: nat, z: nat)
    requires Tiled(dir, upper, end) && k < |dir| && dir[k].used && !Deletable(dir, k)
    requires z < |dir| && z != k && dir[z].used && dir[z].offset == dir[k].offset
    ensures !Tiled(Removed(dir, k), upper + dir[k].length, end)
  {
    var hole, dir1 := dir[k], Removed(dir, k);
    assert Within(hole, upper, end) && Apart(dir[z], hole) && dir1[z] == dir[z];
    var p := hole.offset - hole.length;
    if p >= upper {
      assert Covered(dir, p);
      var i :| 0 <= i < |dir| && Covers(dir[i], p);
      assert dir[i].offset != p;
      assert i != k && i != z;
      assert dir1[i].used && dir1[z].used && !Apart(dir1[i], dir1[z]);
    } else {
      assert !Within(dir1[z], upper + hole.length, end);
    }
  }

  lemma RemovedWithin(dir: seq<Slot>, k: nat, upper: nat, end: nat)
    requires Tiled(dir, upper, end) && k < |dir| && dir[k].used && Deletable(dir, k)
    ensures forall i :: 0 <= i < |dir| && Removed(dir, k)[i].used ==>
      Within(Removed(dir, k)[i], upper + dir[k].length, end)
  {
  }

  lemma RemovedApart(dir: seq<Slot>, k: nat, upper: nat, end: nat, i: nat, j: nat)
    requires Tiled(dir, upper, end) && k < |dir| && dir[k].used && Deletable(dir, k)
    requires i < |dir| && j < |dir| && i != j && Removed(dir, k)[i].used && Removed(dir, k)[j].used
    ensures Apart(Removed(dir, k)[i], Removed(dir, k)[j])
  {
  }

  /** The directory after slot k's record is deleted and one of n bytes put in its slot. */
  function Replaced(dir: seq<Slot>, k: nat, upper: nat, n: nat): (r: seq<Slot>)
    requires k < |dir| && n <= upper + dir[k].length
    ensures |r| == |dir|
  {
    Removed(dir, k)[k := Slot(true, upper + dir[k].length - n, n)]
  }

  lemma ReplacedIs(dir: seq<Slot>, k: nat, upper: nat, n: nat)
    requires k < |dir| && n <= upper + dir[k].length
    ensures Replaced(dir, k, upper, n) == Removed(dir, k)[k := Slot(true, upper + dir[k].length - n, n)]
  {
  }

  /** An update keeps the tiling exactly when the slot is Deletable, or the new record
      starts where the old one did. */
  lemma UpdateTiles(dir: seq<Slot>, k: nat, upper: nat, end: nat, n: nat)
    requires Tiled(dir, upper, end) && k < |dir| && dir[k].used && n <= upper + dir[k].length
    ensures Tiled(Replaced(dir, k, upper, n), upper + dir[k].length - n, end)
       <==> Deletable(dir, k) || dir[k].offset + n == upper + dir[k].length
  {
    var hole := dir[k];
    DeleteTiles(dir, k, upper, end);
    if Deletable(dir, k) {
      InsertTiles(Removed(dir, k), k, n, upper + hole.length, end);
    } else if hole.offset + n == upper + hole.length {
      ReplacedTiles(dir, k, upper, end, n);
    } else {
      var z :| 0 <= z < |dir| && z != k && dir[z].used && dir[z].offset == hole.offset;
      ReplacedOverlaps(dir, k, upper, end, n, z);
    }
  }

  /** Empty records left behind at the hole end up at the head of the new record. */
  lemma ReplacedTiles(dir: seq<Slot>, k: nat, upper: nat, end: nat, n: nat)
    requires Tiled(dir, upper, end) && k < |dir| && dir[k].used && dir[k].offset + n == upper + dir[k].length
    ensures Tiled(Replaced(dir, k, upper, n), dir[k].offset, end)
  {
    var hole, dir1 := dir[k], Replaced(dir, k, upper, n);
    assert Within(hole, upper, end);
    RemovedCovers(dir, k, upper, end);
    forall p | hole.offset <= p < end ensures Covered(dir1, p) {
      if p < upper + hole.length {
        assert Covers(dir1[k], p);
      } else {
        assert Covered(Removed(dir, k), p);
        var i :| 0 <= i < |dir| && Covers(Removed(dir, k)[i], p);
        assert Covers(dir1[i], p);
      }
    }
    forall i, j | 0 <= i < j < |dir| && dir1[i].used && dir1[j].used ensures Apart(dir1[i], dir1[j]) {
      ReplacedApart(dir, k, upper, end, n, i, j);
    }
    forall i | 0 <= i < |dir| && dir1[i].used ensures Within(dir1[i], hole.offset, end) {
      assert i != k ==> Within(dir[i], upper, end) && Apart(dir[i], hole);
    }
  }

  lemma ReplacedApart(dir: seq<Slot>, k: nat, upper: nat, end: nat, n: nat, i: nat, j: nat)
    requires Tiled(dir, upper, end) && k < |dir| && dir[k].used && dir[k].offset + n == upper + dir[k].length
    requires i < j < |dir| && Replaced(dir, k, upper, n)[i].used && Replaced(dir, k, upper, n)[j].used
    ensures Apart(Replaced(dir, k, upper, n)[i], Replaced(dir, k, upper, n)[j])
  {
    var hole := dir[k];
    assert i != k ==> Within(dir[i], upper, end) && Apart(dir[i], hole);
    assert j != k ==> Within(dir[j], upper, end) && Apart(dir[j], hole);
    assert i != k && j != k ==> Apart(dir[i], dir[j]);
  }

  lemma ReplacedOverlaps(dir: seq<Slot>, k: nat, upper: nat, end: nat, n: nat, z: nat)
    requires Tiled(dir, upper, end) && k < |dir| && dir[k].used && !Deletable(dir, k)
    requires n <= upper + dir[k].length && dir[k].offset + n != upper + dir[k].length
    requires z < |dir| && z != k && dir[z].used && dir[z].offset == dir[k].offset
    ensures !Tiled(Replaced(dir, k, upper, n), upper + dir[k].length - n, end)
  {
    var hole, dir1 := dir[k], Replaced(dir, k, upper, n);
    assert Within(hole, upper, end) && Apart(dir[z], hole) && dir1[z] == dir[z];
    var p := hole.offset - hole.length;
    if p >= upper {
      assert Covered(dir, p);
      var i :| 0 <= i < |dir| && Covers(dir[i], p);
      assert dir[i].offset != p;
      assert i != k && i != z;
      assert dir1[i].used && dir1[z].used && !Apart(dir1[i], dir1[z]);
    } else {
      assert !Within(dir1[z], upper + hole.length - n, end) || !Apart(dir1[k], dir1[z]);
    }
  }

  /** A page without empty records can delete any record. */
  lemma NonEmptyDeletable(dir: seq<Slot>, k: nat, upper: nat, end: nat)
    requires Tiled(dir, upper, end) && k < |dir| && dir[k].used
    requires forall i :: 0 <= i < |dir| && dir[i].used ==> dir[i].length > 0
    ensures Deletable(dir, k)
  {
  }

  /** No record has a byte below `upper`. */
  ghost predicate Above(dir: seq<Slot>, upper: nat, end: nat) {
    && (forall i :: 0 <= i < |dir| && dir[i].used ==> dir[i].offset + dir[i].length <= end)
    && (forall i :: 0 <= i < |dir| && dir[i].used && dir[i].length > 0 ==> upper <= dir[i].offset)
  }

  lemma PackedAbove(dir: seq<Slot>, lower: nat, upper: nat, end: nat)
    requires Packed(dir, lower, upper, end)
    ensures Above(dir, upper, end)
  {
  }

  /** The records stay packed when one is deleted, whatever their lengths. */
  lemma RemovedPacked(dir: seq<Slot>, k: nat, lower: nat, upper: nat, end: nat)
    requires Packed(dir, lower, upper, end) && k < |dir| && dir[k].used
    ensures upper + dir[k].length <= end && Packed(Removed(dir, k), lower, upper + dir[k].length, end)
  {
    hide Removed;
    var hole, dir1 := dir[k], Removed(dir, k);
    assert Within(hole, if hole.length > 0 then upper else lower, end);
    forall i | 0 <= i < |dir| && dir1[i].used
      ensures Within(dir1[i], if dir1[i].length > 0 then upper + hole.length else lower, end)
    {
      RemovedAt(dir, k, i);
      assert Solid(dir[i]) && Solid(hole) ==> Apart(dir[i], hole);
    }
    forall i, j | 0 <= i < j < |dir| && Solid(dir1[i]) && Solid(dir1[j]) ensures Apart(dir1[i], dir1[j]) {
      RemovedAt(dir, k, i);
      RemovedAt(dir, k, j);
      assert Apart(dir[i], dir[j]) && (Solid(hole) ==> Apart(dir[i], hole) && Apart(dir[j], hole));
    }
    forall p | upper + hole.length <= p < end ensures Covered(dir1, p) {
      RemovedHas(dir, k, lower, upper, end, p);
    }
  }

  lemma RemovedAt(dir: seq<Slot>, k: nat, i: nat)
    requires k < |dir| && i < |dir|
    ensures Removed(dir, k)[i] == if i == k then Slot(false, 0, 0) else Moved(dir[i], dir[k])
  {
  }

  /** Who owns a byte after the deletion. */
  lemma RemovedHas(dir: seq<Slot>, k: nat, lower: nat, upper: nat, end: nat, p: nat)
    requires Packed(dir, lower, upper, end) && k < |dir| && dir[k].used && upper + dir[k].length <= p < end
    ensures Covered(Removed(dir, k), p)
  {
    var hole := dir[k];
    var q := if p < hole.offset + hole.length then p - hole.length else p;
    var i := Owner(dir, q, lower, upper, end);
    assert i != k && Solid(hole) ==> Apart(dir[i], hole);
    RemovedAt(dir, k, i);
    assert Covers(Removed(dir, k)[i], p);
  }

  /** The page's bytes with slot `hole` cleared. */
  function Blanked(d: seq<Byte>, hole: Slot, p: nat): Byte
    requires p < |d|
  {
    if hole.offset <= p < hole.offset + hole.length then 0 else d[p]
  }

  /** What compaction leaves at byte p when it clears the hole and moves the `count` bytes
      that start at `from` up by the hole's length. */
  function ByteAfter(d: seq<Byte>, hole: Slot, from: nat, count: nat, p: nat): Byte
    requires p < |d|
  {
    var to := from + hole.length;
    if to <= p < to + count then Blanked(d, hole, p - hole.length) else Blanked(d, hole, p)
  }

  /** Compaction moves as many bytes as lie below the hole, but counts them from the least
      offset. Bytes it does not reach survive only where the byte already at their new
      place, cleared if it was the hole's, is the same. */
  ghost predicate Lossless(d: seq<Byte>, dir: seq<Slot>, k: nat, upper: nat)
    requires k < |dir|
  {
    var hole := dir[k];
    var reached := LeastBelow(dir, hole.offset, |dir|) + (hole.offset - upper);
    forall q: nat :: upper <= q < hole.offset && reached <= q && q + hole.length < |d| ==>
      d[q] == Blanked(d, hole, q + hole.length)
  }

  /** Deletion is lossless on a page where no empty record was left in the free space. */
  lemma NoStrayLossless(d: seq<Byte>, dir: seq<Slot>, k: nat, lower: nat, upper: nat)
    requires Packed(dir, lower, upper, |d|) && k < |dir| && dir[k].used && dir[k].offset + dir[k].length <= |d|
    requires NoStray(dir, upper) || dir[k].offset <= upper || dir[k].length == 0
    ensures Lossless(d, dir, k, upper)
  {
    if dir[k].length > 0 {
      LeastIs(dir, k, lower, upper, |d|);
    }
  }

  /** Storing bytes in the free space and pointing an unused slot at them binds that slot. */
  lemma InsertRecords(dir: seq<Slot>, d: seq<Byte>, d1: seq<Byte>, k: nat, record: seq<Byte>, upper: nat)
    requires |d| == |d1| && k < |dir| && !dir[k].used && |record| <= upper <= |d|
    requires Above(dir, upper, |d|)
    requires forall p :: upper <= p < |d| ==> d1[p] == d[p]
    requires d1[upper - |record|..upper] == record
    ensures k + 1 !in RecordsOf(dir, d)
    ensures RecordsOf(dir[k := Slot(true, upper - |record|, |record|)], d1) == RecordsOf(dir, d)[k + 1 := record]
  {
    var dir1 := dir[k := Slot(true, upper - |record|, |record|)];
    forall s: SlotId | 1 <= s <= |dir| && s != k + 1 && dir[s - 1].used
      ensures Holds(dir, d, s) && Holds(dir1, d1, s) && RecordIn(d1, dir1[s - 1]) == RecordIn(d, dir[s - 1])
    {
      assert dir1[s - 1] == dir[s - 1];
    }
    assert Holds(dir1, d1, k + 1);
  }

  /** A slot directory that gained or lost only unused slots holds the same records. */
  lemma ResizeRecords(dir: seq<Slot>, dir1: seq<Slot>, d: seq<Byte>)
    requires forall i :: 0 <= i < |dir1| && dir1[i].used ==> i < |dir| && dir[i] == dir1[i]
    requires forall i :: 0 <= i < |dir| && dir[i].used ==> i < |dir1| && dir1[i] == dir[i]
    ensures RecordsOf(dir1, d) == RecordsOf(dir, d)
  {
  }

  /** The bytes are those compaction leaves. */
  ghost predicate Compacted(d: seq<Byte>, d1: seq<Byte>, dir: seq<Slot>, k: nat, lower: nat)
    requires k < |dir| && |d| == |d1|
  {
    forall p: nat :: lower <= p < |d| ==>
      d1[p] == ByteAfter(d, dir[k], LeastBelow(dir, dir[k].offset, |dir|), SumBelow(dir, dir[k].offset, |dir|), p)
  }

  /** Blanking the hole and then shifting the bytes that lie below it compacts. */
  lemma CompactedIs(d: seq<Byte>, d1: seq<Byte>, d2: seq<Byte>, d3: seq<Byte>, dir: seq<Slot>, k: nat, lower: nat,
                    from: nat, count: nat)
    requires k < |dir| && |d| == |d1| == |d2| == |d3|
    requires lower <= from == LeastBelow(dir, dir[k].offset, |dir|) && count == SumBelow(dir, dir[k].offset, |dir|)
    requires forall p: nat :: p < |d| ==> d1[p] == Blanked(d, dir[k], p)
    requires forall p: nat :: lower <= p < |d| ==> d2[p] == d1[p]
    requires forall p: nat :: p < |d| ==> d3[p] == Shifted(d2, from, count, dir[k].length, p)
    ensures Compacted(d, d3, dir, k, lower)
  {
    hide LeastBelow, SumBelow, Blanked;
  }

  /** The byte at p once `count` bytes from `from` have moved up by `distance`. */
  function Shifted(d: seq<Byte>, from: nat, count: nat, distance: nat, p: nat): Byte
    requires p < |d|
  {
    if from + distance <= p < from + distance + count then d[p - distance] else d[p]
  }

  lemma SameCompacted(d: seq<Byte>, d1: seq<Byte>, d2: seq<Byte>, dir: seq<Slot>, k: nat, lower: nat)
    requires k < |dir| && |d| == |d1| == |d2| && Compacted(d, d1, dir, k, lower)
    requires forall p :: lower <= p < |d| ==> d2[p] == d1[p]
    ensures Compacted(d, d2, dir, k, lower)
  {
  }

  /** Closing the hole keeps every other record's bytes exactly when it is lossless. */
  lemma DeleteRecords(dir: seq<Slot>, d: seq<Byte>, d1: seq<Byte>, k: nat, lower: nat, upper: nat)
    requires |d| == |d1| && Packed(dir, lower, upper, |d|) && k < |dir| && dir[k].used
    requires dir[k].offset + dir[k].length <= |d| && Compacted(d, d1, dir, k, lower)
    ensures RecordsOf(Removed(dir, k), d1).Keys == RecordsOf(dir, d).Keys - {k + 1}
    ensures RecordsOf(Removed(dir, k), d1) == RecordsOf(dir, d) - {k + 1} <==> Lossless(d, dir, k, upper)
  {
    hide Packed, RecordIn, Lossless, Removed, Compacted;
    var dir1 := Removed(dir, k);
    forall s: SlotId | 1 <= s <= |dir|
      ensures s != k + 1 ==> (Holds(dir, d, s) <==> Holds(dir1, d1, s))
      ensures !Holds(dir1, d1, k + 1)
    {
      OtherHeld(dir, d, d1, k, lower, upper, s);
    }
    if Lossless(d, dir, k, upper) {
      forall s: SlotId | 1 <= s <= |dir| && s != k + 1 && Holds(dir, d, s)
        ensures Holds(dir1, d1, s) && RecordIn(d1, dir1[s - 1]) == RecordIn(d, dir[s - 1])
      {
        OtherKept(dir, d, d1, k, lower, upper, s);
      }
    } else {
      var s := OtherLost(dir, d, d1, k, lower, upper);
      assert s in RecordsOf(dir, d) - {k + 1} && s in RecordsOf(dir1, d1);
    }
  }

  lemma OtherHeld(dir: seq<Slot>, d: seq<Byte>, d1: seq<Byte>, k: nat, lower: nat, upper: nat, s: SlotId)
    requires |d| == |d1| && Packed(dir, lower, upper, |d|) && k < |dir| && dir[k].used && 1 <= s <= |dir|
    ensures s != k + 1 ==> (Holds(dir, d, s) <==> Holds(Removed(dir, k), d1, s))
    ensures !Holds(Removed(dir, k), d1, k + 1)
  {
    assert Within(dir[k], if dir[k].length > 0 then upper else lower, |d|);
    RemovedAt(dir, k, k);
    RemovedAt(dir, k, s - 1);
    assert Solid(dir[s - 1]) && Solid(dir[k]) && s != k + 1 ==> Apart(dir[s - 1], dir[k]);
  }

  /** Where a byte above the free space ends up. */
  lemma ByteMoves(dir: seq<Slot>, d: seq<Byte>, d1: seq<Byte>, k: nat, lower: nat, upper: nat, q: nat)
    requires |d| == |d1| && Packed(dir, lower, upper, |d|) && k < |dir| && dir[k].used
    requires dir[k].offset + dir[k].length <= |d| && Compacted(d, d1, dir, k, lower)
    requires upper <= q < |d|
    ensures q < dir[k].offset ==>
      var reached := LeastBelow(dir, dir[k].offset, |dir|) + (dir[k].offset - upper);
      && (q < reached || dir[k].length == 0 ==> d1[q + dir[k].length] == d[q])
      && (reached <= q ==> d1[q + dir[k].length] == Blanked(d, dir[k], q + dir[k].length))
    ensures q >= dir[k].offset + dir[k].length ==> d1[q] == d[q]
  {
    hide LeastBelow, SumBelow;
    MoveRange(dir, k, lower, upper, |d|);
  }

  /** The owner of a byte below the hole ends below it. */
  lemma OwnerBelow(dir: seq<Slot>, k: nat, i: nat, lower: nat, upper: nat, end: nat, q: nat)
    requires Packed(dir, lower, upper, end) && k < |dir| && i < |dir| && dir[k].used && Covers(dir[i], q)
    requires q < dir[k].offset
    ensures i != k && dir[i].offset + dir[i].length <= end
  {
    assert Within(dir[i], upper, end);
  }

  lemma OtherKept(dir: seq<Slot>, d: seq<Byte>, d1: seq<Byte>, k: nat, lower: nat, upper: nat, s: SlotId)
    requires |d| == |d1| && Packed(dir, lower, upper, |d|) && k < |dir| && dir[k].used
    requires dir[k].offset + dir[k].length <= |d| && Compacted(d, d1, dir, k, lower)
    requires Lossless(d, dir, k, upper) && 1 <= s <= |dir| && s != k + 1 && Holds(dir, d, s)
    ensures Holds(Removed(dir, k), d1, s) && RecordIn(d1, Removed(dir, k)[s - 1]) == RecordIn(d, dir[s - 1])
  {
    hide Compacted, LeastBelow, Blanked, Removed;
    OtherHeld(dir, d, d1, k, lower, upper, s);
    var t, t1, hole := dir[s - 1], Removed(dir, k)[s - 1], dir[k];
    RemovedAt(dir, k, s - 1);
    assert Within(t, if t.length > 0 then upper else lower, |d|);
    assert Solid(t) && Solid(hole) ==> Apart(t, hole);
    forall q: nat | t.offset <= q < t.offset + t.length ensures d1[t1.offset + (q - t.offset)] == d[q] {
      ByteMoves(dir, d, d1, k, lower, upper, q);
    }
    assert RecordIn(d1, t1) == RecordIn(d, t);
  }

  /** A byte that is not reached belongs to a record, which changes. */
  lemma OtherLost(dir: seq<Slot>, d: seq<Byte>, d1: seq<Byte>, k: nat, lower: nat, upper: nat) returns (s: SlotId)
    requires |d| == |d1| && Packed(dir, lower, upper, |d|) && k < |dir| && dir[k].used
    requires dir[k].offset + dir[k].length <= |d| && Compacted(d, d1, dir, k, lower)
    requires !Lossless(d, dir, k, upper)
    ensures 1 <= s <= |dir| && s != k + 1 && Holds(dir, d, s) && Holds(Removed(dir, k), d1, s)
    ensures RecordIn(d1, Removed(dir, k)[s - 1]) != RecordIn(d, dir[s - 1])
  {
    hide Packed, Compacted, LeastBelow, Removed, Blanked;
    var hole := dir[k];
    var q: nat :| upper <= q < hole.offset && LeastBelow(dir, hole.offset, |dir|) + (hole.offset - upper) <= q
      && q + hole.length < |d| && d[q] != Blanked(d, hole, q + hole.length);
    var i := Owner(dir, q, lower, upper, |d|);
    s := i + 1;
    ByteMoves(dir, d, d1, k, lower, upper, q);
    OwnerBelow(dir, k, i, lower, upper, |d|, q);
    RemovedAt(dir, k, i);
    OtherHeld(dir, d, d1, k, lower, upper, s);
    assert RecordIn(d, dir[i])[q - dir[i].offset] == d[q];
    assert RecordIn(d1, Removed(dir, k)[i])[q - dir[i].offset] == d1[q + hole.length];
  }

  /** The slot an insertion takes: the lowest unused one, else one past the directory. */
  function FirstUnused(dir: seq<Slot>): (s: SlotId)
    ensures 1 <= s <= |dir| + 1
    ensures forall j :: 0 <= j < s - 1 ==> dir[j].used
    ensures s <= |dir| ==> !dir[s - 1].used
  {
    if dir == [] || !dir[0].used then 1 else FirstUnused(dir[1..]) + 1
  }

  /** It is the only slot with these properties. */
  lemma FirstUnusedIs(dir: seq<Slot>, s: SlotId)
    requires 1 <= s <= |dir| + 1 && (forall j :: 0 <= j < s - 1 ==> dir[j].used) && (s <= |dir| ==> !dir[s - 1].used)
    ensures FirstUnused(dir) == s
  {
  }

  /** A record put into an unused slot at the top of the free space. */
  lemma StoreKeeps(d: seq<Byte>, d1: seq<Byte>, upper: nat, n: nat, numFree: nat, k: nat, record: seq<Byte>)
    requires |d| == |d1| && Counted(d, SLOT_SIZE * n, upper, n, numFree) && Above(Directory(d, n), upper, |d|)
    requires k < n && !Directory(d, n)[k].used && SLOT_SIZE * n + |record| <= upper
    requires Directory(d1, n) == Directory(d, n)[k := Slot(true, upper - |record|, |record|)]
    requires d1[upper - |record|..upper] == record && forall p :: upper <= p < |d| ==> d1[p] == d[p]
    ensures numFree > 0 && Counted(d1, SLOT_SIZE * n, upper - |record|, n, numFree - 1)
    ensures Laid(d1, SLOT_SIZE * n, upper - |record|, n, numFree - 1) <==> Laid(d, SLOT_SIZE * n, upper, n, numFree)
    ensures Tiled(Directory(d, n), upper, |d|) ==> Tiled(Directory(d1, n), upper - |record|, |d|)
    ensures k + 1 !in RecordsOf(Directory(d, n), d)
    ensures RecordsOf(Directory(d1, n), d1) == RecordsOf(Directory(d, n), d)[k + 1 := record]
    ensures Trimmed(Directory(d, n)) || k == n - 1 ==> Trimmed(Directory(d1, n))
  {
    hide Tiled, Packed, RecordsOf, Above;
    var dir := Directory(d, n);
    if Tiled(dir, upper, |d|) {
      InsertTiles(dir, k, |record|, upper, |d|);
    }
    InsertPacks(dir, k, |record|, SLOT_SIZE * n, upper, |d|);
    FreeCountUpdate(dir, k, Slot(true, upper - |record|, |record|));
    InsertRecords(dir, d, d1, k, record, upper);
  }

  lemma DirectoryGrows(d: seq<Byte>, n: nat)
    requires SLOT_SIZE * n + SLOT_SIZE <= |d|
    ensures Directory(d, n + 1) == Directory(d, n) + [SlotAt(d, n)]
  {
  }

  lemma FreeCountGrows(dir: seq<Slot>, s: Slot)
    ensures FreeCount(dir + [s]) == FreeCount(dir) + if s.used then 0 else 1
  {
  }

  /** The directory extended over the next six free bytes. */
  lemma GrowKeeps(d: seq<Byte>, upper: nat, n: nat)
    requires Laid(d, SLOT_SIZE * n, upper, n, 0) && SLOT_SIZE * n + SLOT_SIZE <= upper
    ensures Directory(d, n + 1) == Directory(d, n) + [SlotAt(d, n)]
    ensures Counted(d, SLOT_SIZE * (n + 1), upper, n + 1, 1) <==> !SlotAt(d, n).used
    ensures Laid(d, SLOT_SIZE * (n + 1), upper, n + 1, 1)
      <==> !SlotAt(d, n).used && NoneIn(Directory(d, n), SLOT_SIZE * n, SLOT_SIZE * (n + 1))
    ensures !SlotAt(d, n).used ==> RecordsOf(Directory(d, n + 1), d) == RecordsOf(Directory(d, n), d)
    ensures !SlotAt(d, n).used ==> Above(Directory(d, n + 1), upper, |d|)
    ensures !SlotAt(d, n).used && Tiled(Directory(d, n), upper, |d|) ==> Tiled(Directory(d, n + 1), upper, |d|)
    ensures FirstUnused(Directory(d, n)) == n + 1
  {
    hide Tiled, Packed, NoneIn, RecordsOf, Directory, SlotAt, FreeCount, FirstUnused;
    var dir := Directory(d, n);
    DirectoryGrows(d, n);
    FreeCountGrows(dir, SlotAt(d, n));
    FreeCountZero(dir);
    FirstUnusedIs(dir, n + 1);
    if !SlotAt(d, n).used {
      PackedAbove(dir, SLOT_SIZE * n, upper, |d|);
      ResizePacks(dir, dir + [SlotAt(d, n)], SLOT_SIZE * n, SLOT_SIZE * (n + 1), upper, |d|);
      ResizeRecords(dir, dir + [SlotAt(d, n)], d);
      if Tiled(dir, upper, |d|) {
        ResizeTiles(dir, dir + [SlotAt(d, n)], upper, |d|);
      }
    }
  }

  /** On a tiled page no empty record is in the way. */
  lemma TiledNone(dir: seq<Slot>, upper: nat, end: nat, lo: nat, hi: nat)
    requires Tiled(dir, upper, end) && hi <= upper
    ensures NoneIn(dir, lo, hi) && NoStray(dir, upper)
  {
  }

  /** Unused slots dropped from the end of the directory. */
  lemma TrimKeeps(d: seq<Byte>, upper: nat, n: nat, numFree: nat, n1: nat)
    requires Laid(d, SLOT_SIZE * n, upper, n, numFree) && n1 <= n
    requires forall j :: n1 <= j < n ==> !Directory(d, n)[j].used
    ensures Directory(d, n1) == Directory(d, n)[..n1]
    ensures n - n1 <= numFree && Laid(d, SLOT_SIZE * n1, upper, n1, numFree - (n - n1))
    ensures Tiled(Directory(d, n1), upper, |d|) <==> Tiled(Directory(d, n), upper, |d|)
    ensures RecordsOf(Directory(d, n1), d) == RecordsOf(Directory(d, n), d)
  {
    hide Tiled, Packed, RecordsOf, SlotAt, FreeCount;
    var dir := Directory(d, n);
    assert Directory(d, n1) == dir[..n1];
    FreeCountTail(dir, n1);
    ResizePacks(dir, dir[..n1], SLOT_SIZE * n, SLOT_SIZE * n1, upper, |d|);
    if Tiled(dir, upper, |d|) {
      ResizeTiles(dir, dir[..n1], upper, |d|);
    }
    if Tiled(dir[..n1], upper, |d|) {
      ResizeTiles(dir[..n1], dir, upper, |d|);
    }
    ResizeRecords(dir, dir[..n1], d);
  }

  /** A record below the hole ends inside the page once moved. */
  lemma MovedFits(dir: seq<Slot>, k: nat, i: nat, lower: nat, upper: nat, end: nat)
    requires Packed(dir, lower, upper, end) && k < |dir| && dir[k].used
    requires i < |dir| && dir[i].used && dir[i].offset < dir[k].offset
    ensures dir[i].offset + dir[k].length <= end && dir[i].length <= end
  {
    assert Within(dir[i], if dir[i].length > 0 then upper else lower, end);
    assert Within(dir[k], if dir[k].length > 0 then upper else lower, end);
  }

  lemma MovedNone(dir: seq<Slot>, k: nat)
    requires k < |dir|
    ensures MovedUpTo(dir, k, 0) == dir && LeastBelow(dir, dir[k].offset, 0) == dir[k].offset
    ensures SumBelow(dir, dir[k].offset, 0) == 0
  {
  }

  /** One step of the loop over the slots. */
  lemma MovedNext(dir: seq<Slot>, k: nat, i: nat)
    requires k < |dir| && i < |dir|
    ensures MovedUpTo(dir, k, i)[i] == dir[i]
    ensures var below := dir[i].used && dir[i].offset < dir[k].offset;
            var least, sum := LeastBelow(dir, dir[k].offset, i), SumBelow(dir, dir[k].offset, i);
            var at, moved := dir[i].offset, MovedUpTo(dir, k, i);
            && MovedUpTo(dir, k, i + 1) == (if below then moved[i := dir[i].(offset := at + dir[k].length)] else moved)
            && LeastBelow(dir, dir[k].offset, i + 1) == (if below && at < least then at else least)
            && SumBelow(dir, dir[k].offset, i + 1) == (if below then sum + dir[i].length else sum)
  {
  }

  lemma HoleInside(d: seq<Byte>, lower: nat, upper: nat, n: nat, numFree: nat, k: nat)
    requires Laid(d, lower, upper, n, numFree) && k < n && Directory(d, n)[k].used
    ensures lower == SLOT_SIZE * n <= upper && |d| < 0x1_0000 && Within(SlotAt(d, k), lower, |d|)
  {
  }

  /** The whole effect of closing a hole. */
  lemma CloseKeeps(d: seq<Byte>, d1: seq<Byte>, upper: nat, n: nat, numFree: nat, k: nat)
    requires |d| == |d1| && Laid(d, SLOT_SIZE * n, upper, n, numFree) && k < n && Directory(d, n)[k].used
    requires Directory(d1, n) == Removed(Directory(d, n), k)
    requires Compacted(d, d1, Directory(d, n), k, SLOT_SIZE * n)
    ensures SlotAt(d, k).offset + SlotAt(d, k).length <= |d|
    ensures Laid(d1, SLOT_SIZE * n, upper + SlotAt(d, k).length, n, numFree + 1)
    ensures RecordsOf(Directory(d1, n), d1).Keys == RecordsOf(Directory(d, n), d).Keys - {k + 1}
    ensures RecordsOf(Directory(d1, n), d1) == RecordsOf(Directory(d, n), d) - {k + 1}
      <==> Lossless(d, Directory(d, n), k, upper)
  {
    hide Packed, RecordsOf, SlotAt, FreeCount, Removed, Compacted, Lossless;
    var dir := Directory(d, n);
    HoleInside(d, SLOT_SIZE * n, upper, n, numFree, k);
    RemovedPacked(dir, k, SLOT_SIZE * n, upper, |d|);
    DeleteRecords(dir, d, d1, k, SLOT_SIZE * n, upper);
    FreeCountUpdate(MovedUpTo(dir, k, n), k, UNUSED);
    FreeCountMoved(dir, k, n);
    RemovedIs(dir, k);
  }

  lemma TiledLossless(d: seq<Byte>, dir: seq<Slot>, k: nat, upper: nat)
    requires Tiled(dir, upper, |d|) && k < |dir| && dir[k].used
    ensures Lossless(d, dir, k, upper)
  {
    TiledPacked(dir, 0, upper, |d|);
    NoStrayLossless(d, dir, k, 0, upper);
  }

  /** Packed records of which none is empty tile the page. */
  lemma SolidTiles(dir: seq<Slot>, lower: nat, upper: nat, end: nat)
    requires Packed(dir, lower, upper, end)
    requires forall i :: 0 <= i < |dir| && dir[i].used ==> dir[i].length > 0
    ensures Tiled(dir, upper, end)
  {
    assert forall i :: 0 <= i < |dir| && dir[i].used ==> Solid(dir[i]);
  }

  /** What deletion does on a tiled page. */
  lemma TiledClose(dir: seq<Slot>, d: seq<Byte>, d1: seq<Byte>, k: nat, lower: nat, upper: nat)
    requires |d| == |d1| && Tiled(dir, upper, |d|) && lower <= upper && k < |dir| && dir[k].used
    requires Compacted(d, d1, dir, k, lower)
    ensures upper + dir[k].length <= |d| && dir[k].offset + dir[k].length <= |d| && Lossless(d, dir, k, upper)
    ensures Tiled(Removed(dir, k), upper + dir[k].length, |d|) <==> Deletable(dir, k)
    ensures forall p :: lower <= p < upper + dir[k].length ==> d1[p] == if p < dir[k].offset then d[p] else 0
  {
    hide Tiled, Packed, LeastBelow, SumBelow, Removed, Deletable, Lossless;
    DeleteTiles(dir, k, upper, |d|);
    TiledPacked(dir, lower, upper, |d|);
    TiledNone(dir, upper, |d|, 0, 0);
    LeastIs(dir, k, lower, upper, |d|);
    NoStrayLossless(d, dir, k, lower, upper);
    MoveRange(dir, k, lower, upper, |d|);
    assert upper <= dir[k].offset by {
      TiledInside(dir, k, upper, |d|);
    }
  }

  lemma TiledInside(dir: seq<Slot>, k: nat, upper: nat, end: nat)
    requires Tiled(dir, upper, end) && k < |dir| && dir[k].used
    ensures Within(dir[k], upper, end)
  {
  }

  lemma RemovedIs(dir: seq<Slot>, k: nat)
    requires k < |dir|
    ensures Removed(dir, k) == MovedUpTo(dir, k, |dir|)[k := UNUSED]
  {
  }

  /** Moving records does not change which slots are used. */
  lemma FreeCountMoved(dir: seq<Slot>, k: nat, n: nat)
    requires k < |dir| && n <= |dir|
    ensures FreeCount(MovedUpTo(dir, k, n)) == FreeCount(dir)
  {
    SameUse(dir, MovedUpTo(dir, k, n));
  }

  lemma {:induction false} SameUse(dir: seq<Slot>, dir1: seq<Slot>)
    requires |dir| == |dir1| && forall i :: 0 <= i < |dir| ==> dir[i].used == dir1[i].used
    ensures FreeCount(dir) == FreeCount(dir1)
  {
    if dir != [] {
      SameUse(dir[..|dir| - 1], dir1[..|dir| - 1]);
    }
  }

  /** The highest used slot number among the first n slots, 0 if none. */
  function LastUsed(dir: seq<Slot>, n: nat): (s: SlotId)
    requires n <= |dir|
    ensures s <= n && (s > 0 ==> dir[s - 1].used) && forall j :: s <= j < n ==> !dir[j].used
  {
    if n == 0 || dir[n - 1].used then n else LastUsed(dir, n - 1)
  }

  lemma LastUsedIs(dir: seq<Slot>, n: nat, s: SlotId)
    requires s <= n <= |dir| && (s > 0 ==> dir[s - 1].used) && forall j :: s <= j < n ==> !dir[j].used
    ensures LastUsed(dir, n) == s
  {
  }

  lemma SameLastUsed(dir: seq<Slot>, dir1: seq<Slot>, n: nat)
    requires n <= |dir| == |dir1| && forall i :: 0 <= i < n ==> dir[i].used == dir1[i].used
    ensures LastUsed(dir, n) == LastUsed(dir1, n)
  {
  }

  /** What deletion does to the use of the slots. */
  lemma RemovedUse(dir: seq<Slot>, k: nat)
    requires k < |dir| && Trimmed(dir)
    ensures !Removed(dir, k)[k].used
    ensures k != |dir| - 1 ==> Trimmed(Removed(dir, k))
    ensures k == |dir| - 1 ==> LastUsed(Removed(dir, k), k) == LastUsed(dir, k)
  {
    hide LastUsed;
    SameLastUsed(dir, Removed(dir, k), if k == |dir| - 1 then k else 0);
  }

  /** The record a slot number is bound to. */
  lemma RecordIs(dir: seq<Slot>, d: seq<Byte>, s: SlotId)
    requires s in RecordsOf(dir, d)
    ensures Holds(dir, d, s) && RecordsOf(dir, d)[s] == RecordIn(d, dir[s - 1])
    ensures |RecordsOf(dir, d)[s]| == dir[s - 1].length
  {
  }

  /** A slot set in place, or added at the end of the directory. */
  function Filled(dir: seq<Slot>, s: SlotId, slot: Slot): seq<Slot>
    requires 1 <= s <= |dir| + 1
  {
    if s <= |dir| then dir[s - 1 := slot] else dir + [slot]
  }

  lemma FilledIs(d: seq<Byte>, n: nat, n1: nat, s: SlotId, slot: Slot)
    requires n <= n1 <= n + 1 && SLOT_SIZE * n1 <= |d| && 1 <= s <= n1 && (n1 == n + 1 ==> s == n1)
    ensures Directory(d, n1)[s - 1 := slot] == Filled(Directory(d, n), s, slot)
  {
  }

  /** A used slot of a well laid page holds a record. */
  lemma SlotHeld(d: seq<Byte>, lower: nat, upper: nat, n: nat, numFree: nat, s: SlotId)
    requires Laid(d, lower, upper, n, numFree) && 1 <= s <= n && Directory(d, n)[s - 1].used
    ensures Holds(Directory(d, n), d, s) && s in RecordsOf(Directory(d, n), d)
  {
  }
}
