/** Index pages as the index file lays them out (p3/src/btree.h): fixed-size arrays
    whose first unused slot carries a sentinel, changed in place. */
module BTreePages {
  import opened Storage
  import opened BTreeSpec

  const INT_MAX: int := 0x7fff_ffff

  const NO_RECORD := RecordId(INVALID_NUMBER, INVALID_SLOT)

  /** Copies `length` elements through a temporary, so source and target may overlap. */
  method CopyArray<T(0)>(from: array<T>, start: nat, to: array<T>, dest: nat, length: nat)
    requires start + length <= from.Length && dest + length <= to.Length
    modifies to
    ensures to[..] == Pasted(old(to[..]), dest, old(from[..]), start, length)
  {
    var temp := new T[length];
    for i := 0 to length
      invariant unchanged(from) && unchanged(to)
      invariant forall j :: 0 <= j < i ==> temp[j] == from[start + j]
    {
      temp[i] := from[start + i];
    }
    assert temp[..] == old(from[..])[start..start + length];
    for i := 0 to length
      invariant temp[..] == old(from[..])[start..start + length]
      invariant forall j :: 0 <= j < i ==> to[dest + j] == temp[j]
      invariant forall j :: 0 <= j < dest || dest + i <= j < to.Length ==> to[j] == old(to[j])
    {
      to[dest + i] := temp[i];
    }
    PastedIs(old(to[..]), dest, temp[..], to[..]);
  }

  /** `length` elements of one sequence in place of as many of another. */
  function Pasted<T>(to: seq<T>, dest: nat, from: seq<T>, start: nat, length: nat): (r: seq<T>)
    requires start + length <= |from| && dest + length <= |to|
    ensures |r| == |to|
  {
    to[..dest] + from[start..start + length] + to[dest + length..]
  }

  lemma PastedIs<T>(to: seq<T>, dest: nat, part: seq<T>, r: seq<T>)
    requires dest + |part| <= |to| == |r|
    requires forall j :: 0 <= j < |part| ==> r[dest + j] == part[j]
    requires forall j :: 0 <= j < dest || dest + |part| <= j < |to| ==> r[j] == to[j]
    ensures r == to[..dest] + part + to[dest + |part|..]
  {
  }

  lemma PastedFront<T>(to: seq<T>, from: seq<T>, start: nat, length: nat)
    requires start + length == |from| && length <= |to|
    ensures Pasted(to, 0, from, start, length)[..length] == from[start..]
  {
  }

  /** The contents of one page, as a value. */
  datatype Image =
    | LeafImage(keys: seq<int>, rids: seq<RecordId>, rightSib: PageId)
    | InnerImage(level: int, keys: seq<int>, kids: seq<PageId>)
    | MetaImage(rootPageNo: PageId, height: nat)

  // ------------------------------------------------------------ leaf layout

  ghost predicate Filled(keys: seq<int>, rids: seq<RecordId>, es: seq<Entry>) {
    && |es| <= |keys| && |es| <= |rids|
    && forall i :: 0 <= i < |es| ==>
      keys[i] == es[i].key && rids[i] == es[i].rid && rids[i].pageNumber != INVALID_NUMBER
  }

  /** A leaf page holding exactly es, with both sentinels behind the last entry. */
  ghost predicate LeafHolds(img: Image, es: seq<Entry>, after: PageId, c: Capacity) {
    && img.LeafImage? && |img.keys| == c.leaf + 1 && |img.rids| == c.leaf + 1
    && |es| <= c.leaf && Filled(img.keys, img.rids, es)
    && img.rids[|es|].pageNumber == INVALID_NUMBER && img.keys[|es|] == INT_MAX
    && img.rightSib == after
  }

  /** s[pos..n] moved one place up; slot pos keeps a stale copy. */
  function Shifted<T>(s: seq<T>, pos: nat, n: nat): (r: seq<T>)
    requires pos <= n < |s|
    ensures |r| == |s|
  {
    s[..pos + 1] + s[pos..n] + s[n + 1..]
  }

  lemma ShiftPastes<T>(s: seq<T>, pos: nat, n: nat)
    requires pos <= n < |s|
    ensures Pasted(s, pos + 1, s, pos, n - pos) == Shifted(s, pos, n)
    ensures Shifted(s, n, n) == s
  {
  }

  lemma FilledInsert(keys: seq<int>, rids: seq<RecordId>, es: seq<Entry>, pos: nat, e: Entry)
    requires Filled(keys, rids, es) && pos <= |es| < |keys| && |es| < |rids|
    requires e.rid.pageNumber != INVALID_NUMBER
    ensures Filled(Shifted(keys, pos, |es|)[pos := e.key], Shifted(rids, pos, |es|)[pos := e.rid],
                   es[..pos] + [e] + es[pos..])
  {}

  lemma FilledUpper(keys: seq<int>, rids: seq<RecordId>, es: seq<Entry>, cut: nat, keys1: seq<int>,
                    rids1: seq<RecordId>)
    requires Filled(keys, rids, es) && cut <= |es| == |keys| == |rids|
    requires |keys1| >= |keys| - cut && keys1[..|keys| - cut] == keys[cut..]
    requires |rids1| >= |rids| - cut && rids1[..|rids| - cut] == rids[cut..]
    ensures Filled(keys1, rids1, es[cut..])
  {
  }

  /** Where the reference insertion puts a key. */
  function EntryPos(es: seq<Entry>, k: int): (r: nat)
    ensures r <= |es|
    ensures forall i :: 0 <= i < r ==> es[i].key <= k
    ensures r < |es| ==> k < es[r].key
  {
    if es == [] || k < es[0].key then 0 else 1 + EntryPos(es[1..], k)
  }

  lemma {:induction false} InsertSortedAt(es: seq<Entry>, e: Entry)
    ensures InsertSorted(es, e) == es[..EntryPos(es, e.key)] + [e] + es[EntryPos(es, e.key)..]
  {
    if es == [] || e.key < es[0].key {
    } else {
      InsertSortedAt(es[1..], e);
      var p := EntryPos(es[1..], e.key);
      assert es[..p + 1] == [es[0]] + es[1..][..p] && es[p + 1..] == es[1..][p..];
    }
  }

  class LeafNode {
    const keyArray: array<int>
    const ridArray: array<RecordId>
    var rightSibPageNo: PageId

    ghost const Objects: set<object> := {this, keyArray, ridArray}

    function Img(): Image
      reads this, keyArray, ridArray
    {
      LeafImage(keyArray[..], ridArray[..], rightSibPageNo)
    }

    /** A fresh page: every field zero. */
    constructor (c: Capacity)
      ensures fresh(Objects) && keyArray.Length == ridArray.Length == c.leaf + 1
      ensures Img() == LeafImage(seq(c.leaf + 1, _ => 0), seq(c.leaf + 1, _ => RecordId(0, 0)), 0)
    {
      keyArray := new int[c.leaf + 1](_ => 0);
      ridArray := new RecordId[c.leaf + 1](_ => NO_RECORD);
      rightSibPageNo := INVALID_NUMBER;
      new;
      assert keyArray[..] == seq(c.leaf + 1, _ => 0) && ridArray[..] == seq(c.leaf + 1, _ => NO_RECORD);
    }

    /** The page image, cast to a leaf. */
    constructor FromImage(img: Image)
      requires img.LeafImage?
      ensures fresh(Objects) && Img() == img
    {
      keyArray := new int[|img.keys|](i requires 0 <= i < |img.keys| => img.keys[i]);
      ridArray := new RecordId[|img.rids|](i requires 0 <= i < |img.rids| => img.rids[i]);
      rightSibPageNo := img.rightSib;
      new;
      assert keyArray[..] == img.keys && ridArray[..] == img.rids;
    }

    /** The number of entries: the first slot whose page number is 0. */
    method EntryNum(c: Capacity, ghost es: seq<Entry>) returns (entryNum: nat)
      requires LeafHolds(Img(), es, rightSibPageNo, c)
      ensures entryNum == |es|
    {
      entryNum := 0;
      while entryNum <= c.leaf
        invariant entryNum <= |es|
      {
        assert entryNum < |es| ==> ridArray[..][entryNum].pageNumber != INVALID_NUMBER;
        if ridArray[entryNum].pageNumber == INVALID_NUMBER {
          break;
        }
        entryNum := entryNum + 1;
      }
    }

    /** The insertion position of `key`. */
    method FindPos(key: int, c: Capacity, ghost es: seq<Entry>) returns (pos: nat)
      requires LeafHolds(Img(), es, rightSibPageNo, c)
      ensures pos == EntryPos(es, key)
    {
      pos := 0;
      while pos <= c.leaf
        invariant pos <= EntryPos(es, key)
      {
        assert pos < |es| ==> keyArray[..][pos] == es[pos].key && ridArray[..][pos].pageNumber != INVALID_NUMBER;
        if key < keyArray[pos] || ridArray[pos].pageNumber == INVALID_NUMBER {
          break;
        }
        pos := pos + 1;
      }
    }

    /** Shifts the entries from pos one slot up and stores the new one at pos. */
    method Place(e: Entry, pos: nat, entryNum: nat, c: Capacity, ghost es: seq<Entry>)
      requires LeafHolds(Img(), es, rightSibPageNo, c) && entryNum == |es| && pos <= |es|
      requires e.rid.pageNumber != INVALID_NUMBER
      modifies keyArray, ridArray
      ensures Filled(keyArray[..], ridArray[..], es[..pos] + [e] + es[pos..])
    {
      if pos < c.leaf {
        CopyArray(keyArray, pos, keyArray, pos + 1, entryNum - pos);
        CopyArray(ridArray, pos, ridArray, pos + 1, entryNum - pos);
      }
      ShiftPastes(old(keyArray[..]), pos, entryNum);
      ShiftPastes(old(ridArray[..]), pos, entryNum);
      keyArray[pos] := e.key;
      ridArray[pos] := e.rid;
      FilledInsert(old(keyArray[..]), old(ridArray[..]), es, pos, e);
      assert keyArray[..] == Shifted(old(keyArray[..]), pos, entryNum)[pos := e.key];
      assert ridArray[..] == Shifted(old(ridArray[..]), pos, entryNum)[pos := e.rid];
    }

    /** Writes the end sentinels into slot i. */
    method Terminate(i: nat, c: Capacity, ghost es: seq<Entry>)
      requires keyArray.Length == ridArray.Length == c.leaf + 1 && i <= c.leaf
      requires Filled(keyArray[..], ridArray[..], es) && i <= |es|
      modifies keyArray, ridArray
      ensures LeafHolds(Img(), es[..i], rightSibPageNo, c)
      ensures keyArray[i] == 2147483647 && ridArray[i].pageNumber == 0
    {
      ridArray[i] := ridArray[i].(pageNumber := INVALID_NUMBER);
      keyArray[i] := INT_MAX;
    }

    /** Copies the upper half of an overfull leaf into the fresh page `right`. */
    method CopyUpper(right: LeafNode, c: Capacity, ghost es: seq<Entry>)
      requires c.Valid() && |es| == c.leaf + 1
      requires keyArray.Length == ridArray.Length == c.leaf + 1
      requires right.keyArray.Length == right.ridArray.Length == c.leaf + 1
      requires Filled(keyArray[..], ridArray[..], es) && Objects !! right.Objects
      modifies right.keyArray, right.ridArray
      ensures Filled(right.keyArray[..], right.ridArray[..], es[c.leaf / 2 + 1..])
    {
      hide Pasted;
      CopyArray(keyArray, c.leaf / 2 + 1, right.keyArray, 0, (c.leaf + 1) / 2);
      CopyArray(ridArray, c.leaf / 2 + 1, right.ridArray, 0, (c.leaf + 1) / 2);
      PastedFront(old(right.keyArray[..]), keyArray[..], c.leaf / 2 + 1, (c.leaf + 1) / 2);
      PastedFront(old(right.ridArray[..]), ridArray[..], c.leaf / 2 + 1, (c.leaf + 1) / 2);
      FilledUpper(keyArray[..], ridArray[..], es, c.leaf / 2 + 1, right.keyArray[..], right.ridArray[..]);
    }

    /** Splits an overfull leaf and links the fresh page in behind it. */
    method SplitInto(right: LeafNode, newPageId: PageId, c: Capacity, ghost es: seq<Entry>)
      requires c.Valid() && |es| == c.leaf + 1
      requires keyArray.Length == ridArray.Length == c.leaf + 1
      requires right.keyArray.Length == right.ridArray.Length == c.leaf + 1
      requires Filled(keyArray[..], ridArray[..], es) && Objects !! right.Objects
      modifies Objects, right.Objects
      ensures LeafHolds(Img(), es[..c.leaf / 2 + 1], newPageId, c)
      ensures LeafHolds(right.Img(), es[c.leaf / 2 + 1..], old(rightSibPageNo), c)
      ensures right.keyArray[0] == es[c.leaf / 2 + 1].key
    {
      CopyUpper(right, c, es);
      right.rightSibPageNo := rightSibPageNo;
      rightSibPageNo := newPageId;
      ghost var upper := es[c.leaf / 2 + 1..];
      assert upper[..(c.leaf + 1) / 2] == upper;
      Terminate(c.leaf / 2 + 1, c, es);
      right.Terminate((c.leaf + 1) / 2, c, upper);
      assert right.keyArray[..][0] == upper[0].key;
    }
  }

  // ----------------------------------------------------------- inner layout

  ghost predicate InnerFilled(keys: seq<int>, kids: seq<PageId>, ks: seq<int>, ps: seq<PageId>) {
    && |ps| == |ks| + 1 && |ks| <= |keys| && |ps| <= |kids|
    && (forall i :: 0 <= i < |ks| ==> keys[i] == ks[i])
    && forall i :: 0 <= i < |ps| ==> kids[i] == ps[i] && kids[i] != INVALID_NUMBER
  }

  /** A root just put above a split: its one separator is written, every later slot
      is still the zero of the fresh page. */
  ghost predicate FreshRoot(img: Image) {
    && img.InnerImage?
    && (forall i :: 1 <= i < |img.keys| ==> img.keys[i] == 0)
    && forall i :: 2 <= i < |img.kids| ==> img.kids[i] == INVALID_NUMBER
  }

  /** An inner page holding exactly ks and ps. The child sentinel is always there;
      a root with one key lacks the key sentinel, every other node has it. */
  ghost predicate InnerHolds(img: Image, level: int, ks: seq<int>, ps: seq<PageId>, c: Capacity, root: bool) {
    && img.InnerImage? && img.level == level && |img.keys| == c.node + 1 && |img.kids| == c.node + 2
    && |ks| <= c.node && InnerFilled(img.keys, img.kids, ks, ps)
    && img.kids[|ps|] == INVALID_NUMBER
    && (if root && |ks| == 1 then FreshRoot(img) else img.keys[|ks|] == INT_MAX)
  }

  lemma InnerFilledInsert(keys: seq<int>, kids: seq<PageId>, ks: seq<int>, ps: seq<PageId>, pos: nat, k: int, p: PageId)
    requires InnerFilled(keys, kids, ks, ps) && pos <= |ks| < |keys| && |ps| < |kids| && p != INVALID_NUMBER
    ensures InnerFilled(Shifted(keys, pos, |ks|)[pos := k], Shifted(kids, pos + 1, |ps|)[pos + 1 := p],
                        ks[..pos] + [k] + ks[pos..], ps[..pos + 1] + [p] + ps[pos + 1..])
  {}

  lemma InnerFilledUpper(keys: seq<int>, kids: seq<PageId>, ks: seq<int>, ps: seq<PageId>, cut: nat, keys1: seq<int>,
                         kids1: seq<PageId>)
    requires InnerFilled(keys, kids, ks, ps) && cut <= |ks| == |keys| && |ps| == |kids|
    requires |keys1| >= |keys| - cut && keys1[..|keys| - cut] == keys[cut..]
    requires |kids1| >= |kids| - cut && kids1[..|kids| - cut] == kids[cut..]
    ensures InnerFilled(keys1, kids1, ks[cut..], ps[cut..])
  {
  }

  function FreshRootImage(level: int, k: int, p0: PageId, p1: PageId, c: Capacity): Image
    requires c.Valid()
  {
    InnerImage(level, seq(c.node + 1, _ => 0)[0 := k], seq(c.node + 2, _ => INVALID_NUMBER)[0 := p0][1 := p1])
  }

  lemma FreshRootHolds(level: int, k: int, p0: PageId, p1: PageId, c: Capacity)
    requires c.Valid() && p0 != INVALID_NUMBER && p1 != INVALID_NUMBER
    ensures InnerHolds(FreshRootImage(level, k, p0, p1, c), level, [k], [p0, p1], c, true)
  {}

  class NonLeafNode {
    var level: int
    const keyArray: array<int>
    const pageNoArray: array<PageId>

    ghost const Objects: set<object> := {this, keyArray, pageNoArray}

    function Img(): Image
      reads this, keyArray, pageNoArray
    {
      InnerImage(level, keyArray[..], pageNoArray[..])
    }

    ghost predicate Sized(c: Capacity) {
      keyArray.Length == c.node + 1 && pageNoArray.Length == c.node + 2 && keyArray as object != pageNoArray as object
    }

    /** A fresh page: every field zero. */
    constructor (c: Capacity)
      ensures fresh(Objects) && Sized(c)
      ensures Img() == InnerImage(0, seq(c.node + 1, _ => 0), seq(c.node + 2, _ => INVALID_NUMBER))
    {
      level := 0;
      keyArray := new int[c.node + 1](_ => 0);
      pageNoArray := new PageId[c.node + 2](_ => INVALID_NUMBER);
      new;
      assert keyArray[..] == seq(c.node + 1, _ => 0);
      assert pageNoArray[..] == seq(c.node + 2, _ => INVALID_NUMBER);
    }

    /** The page image, cast to an inner node. */
    constructor FromImage(img: Image)
      requires img.InnerImage?
      ensures fresh(Objects) && keyArray as object != pageNoArray as object && Img() == img
    {
      level := img.level;
      keyArray := new int[|img.keys|](i requires 0 <= i < |img.keys| => img.keys[i]);
      pageNoArray := new PageId[|img.kids|](i requires 0 <= i < |img.kids| => img.kids[i]);
      new;
      assert keyArray[..] == img.keys && pageNoArray[..] == img.kids;
    }

    /** The child an insertion of `key` goes down to. */
    method FindChild(key: int, c: Capacity, ghost ks: seq<int>, ghost ps: seq<PageId>, ghost root: bool)
      returns (pos: nat)
      requires InnerHolds(Img(), level, ks, ps, c, root)
      ensures pos == UpperIndex(ks, key)
    {
      pos := 0;
      while pos <= c.node
        invariant pos <= UpperIndex(ks, key)
      {
        assert pos < |ks| ==> keyArray[..][pos] == ks[pos];
        assert pos < |ks| ==> pageNoArray[..][pos + 1] == ps[pos + 1] != INVALID_NUMBER;
        if key < keyArray[pos] || pageNoArray[pos + 1] == INVALID_NUMBER {
          break;
        }
        pos := pos + 1;
      }
    }

    /** The number of children: the first slot whose page number is 0. */
    method EntryNum(c: Capacity, ghost ks: seq<int>, ghost ps: seq<PageId>, ghost root: bool) returns (entryNum: nat)
      requires InnerHolds(Img(), level, ks, ps, c, root)
      ensures entryNum == |ps|
    {
      entryNum := 0;
      while entryNum <= c.node + 1
        invariant entryNum <= |ps|
      {
        assert entryNum < |ps| ==> pageNoArray[..][entryNum] != INVALID_NUMBER;
        if pageNoArray[entryNum] == INVALID_NUMBER {
          break;
        }
        entryNum := entryNum + 1;
      }
    }

    /** Shifts the separators from pos and the children behind it one slot up and
        stores the new separator and child. */
    method Place(k: int, p: PageId, pos: nat, entryNum: nat, c: Capacity,
                 ghost ks: seq<int>, ghost ps: seq<PageId>, ghost root: bool)
      requires InnerHolds(Img(), level, ks, ps, c, root) && Sized(c)
      requires entryNum == |ps| && pos <= |ks| && p != INVALID_NUMBER
      modifies keyArray, pageNoArray
      ensures InnerFilled(keyArray[..], pageNoArray[..],
                          ks[..pos] + [k] + ks[pos..], ps[..pos + 1] + [p] + ps[pos + 1..])
    {
      if pos < c.node {
        CopyArray(keyArray, pos, keyArray, pos + 1, entryNum - 1 - pos);
        CopyArray(pageNoArray, pos + 1, pageNoArray, pos + 2, entryNum - 1 - pos);
      }
      ShiftPastes(old(keyArray[..]), pos, |ks|);
      ShiftPastes(old(pageNoArray[..]), pos + 1, |ps|);
      keyArray[pos] := k;
      pageNoArray[pos + 1] := p;
      InnerFilledInsert(old(keyArray[..]), old(pageNoArray[..]), ks, ps, pos, k, p);
      assert keyArray[..] == Shifted(old(keyArray[..]), pos, |ks|)[pos := k];
      assert pageNoArray[..] == Shifted(old(pageNoArray[..]), pos + 1, |ps|)[pos + 1 := p];
    }

    /** Writes the end sentinels behind n keys. */
    method Terminate(n: nat, c: Capacity, ghost ks: seq<int>, ghost ps: seq<PageId>)
      requires Sized(c) && n <= c.node && n <= |ks| && InnerFilled(keyArray[..], pageNoArray[..], ks, ps)
      modifies keyArray, pageNoArray
      ensures InnerHolds(Img(), level, ks[..n], ps[..n + 1], c, false)
      ensures keyArray[n] == 2147483647 && pageNoArray[n + 1] == 0
    {
      pageNoArray[n + 1] := INVALID_NUMBER;
      keyArray[n] := INT_MAX;
    }

    /** Copies what lies above the middle separator into the fresh page `right`. */
    method CopyUpper(right: NonLeafNode, c: Capacity, ghost ks: seq<int>, ghost ps: seq<PageId>)
      requires c.Valid() && |ks| == c.node + 1 && Sized(c) && right.Sized(c)
      requires InnerFilled(keyArray[..], pageNoArray[..], ks, ps) && Objects !! right.Objects
      modifies right.keyArray, right.pageNoArray
      ensures InnerFilled(right.keyArray[..], right.pageNoArray[..],
                          ks[(c.node + 1) / 2 + 1..], ps[(c.node + 1) / 2 + 1..])
    {
      hide Pasted;
      CopyArray(keyArray, (c.node + 1) / 2 + 1, right.keyArray, 0, c.node / 2);
      CopyArray(pageNoArray, (c.node + 1) / 2 + 1, right.pageNoArray, 0, c.node / 2 + 1);
      PastedFront(old(right.keyArray[..]), keyArray[..], (c.node + 1) / 2 + 1, c.node / 2);
      PastedFront(old(right.pageNoArray[..]), pageNoArray[..], (c.node + 1) / 2 + 1, c.node / 2 + 1);
      InnerFilledUpper(keyArray[..], pageNoArray[..], ks, ps, (c.node + 1) / 2 + 1, right.keyArray[..],
                       right.pageNoArray[..]);
    }

    /** Splits an overfull inner node around its middle separator. */
    method SplitInto(right: NonLeafNode, c: Capacity, ghost ks: seq<int>, ghost ps: seq<PageId>)
      returns (newSlotKey: int)
      requires c.Valid() && |ks| == c.node + 1 && Sized(c) && right.Sized(c)
      requires InnerFilled(keyArray[..], pageNoArray[..], ks, ps) && Objects !! right.Objects
      modifies Objects, right.Objects
      ensures level == old(level) && newSlotKey == ks[(c.node + 1) / 2]
      ensures InnerHolds(Img(), level, ks[..(c.node + 1) / 2], ps[..(c.node + 1) / 2 + 1], c, false)
      ensures InnerHolds(right.Img(), level, ks[(c.node + 1) / 2 + 1..], ps[(c.node + 1) / 2 + 1..], c, false)
    {
      newSlotKey := keyArray[(c.node + 1) / 2];
      assert newSlotKey == keyArray[..][(c.node + 1) / 2];
      CopyUpper(right, c, ks, ps);
      right.level := level;
      ghost var uks, ups := ks[(c.node + 1) / 2 + 1..], ps[(c.node + 1) / 2 + 1..];
      assert uks[..c.node / 2] == uks && ups[..c.node / 2 + 1] == ups;
      Terminate((c.node + 1) / 2, c, ks, ps);
      right.Terminate(c.node / 2, c, uks, ups);
    }

    /** The first separator of a new root, over a fresh page (lines 329-333). */
    method StartRoot(p0: PageId, k: int, p1: PageId, isLeaf: bool, c: Capacity)
      requires c.Valid() && Sized(c) && p0 != INVALID_NUMBER && p1 != INVALID_NUMBER
      requires Img() == InnerImage(0, seq(c.node + 1, _ => 0), seq(c.node + 2, _ => INVALID_NUMBER))
      modifies this, keyArray, pageNoArray
      ensures InnerHolds(Img(), if isLeaf then 1 else 0, [k], [p0, p1], c, true)
    {
      pageNoArray[0] := p0;
      keyArray[0] := k;
      pageNoArray[1] := p1;
      level := if isLeaf then 1 else 0;
      assert Img() == FreshRootImage(level, k, p0, p1, c);
      FreshRootHolds(level, k, p0, p1, c);
    }
  }
}
