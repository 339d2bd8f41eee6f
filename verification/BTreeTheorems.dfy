/** What follows for every index, from the invariants insertion keeps. */
module BTreeTheorems {
  import opened Storage
  import opened BTreeSpec
  import opened BTreePages
  import opened BTreeRep
  import opened BTreeChain
  import opened BTreeScanSpec
  import opened BTreeIndexing

  // ----------------------------------------------------------- occupancy

  function Pow(b: nat, e: nat): nat {
    if e == 0 then 1 else b * Pow(b, e - 1)
  }

  /** Entries a non-root subtree of height h holds at least. */
  function LeastEntries(h: nat, c: Capacity): nat
    requires h >= 1
  {
    Pow(c.node / 2 + 1, h - 1) * ((c.leaf + 1) / 2)
  }

  lemma {:induction false} ConcatAtLeast(ts: seq<Tree>, m: nat)
    requires forall i :: 0 <= i < |ts| ==> |InOrder(ts[i])| >= m
    ensures |Concat(ts)| >= |ts| * m
  {
    hide InOrder;
    if ts != [] {
      assert forall i :: 0 <= i < |ts| - 1 ==> ts[1..][i] == ts[i + 1];
      ConcatAtLeast(ts[1..], m);
      assert |ts| * m == m + |ts[1..]| * m;
    }
  }

  lemma MulMono(a: nat, b: nat, m: nat)
    requires a <= b
    ensures a * m <= b * m
  {}

  lemma {:induction false} SubtreeOccupancy(t: Tree, h: nat, c: Capacity)
    requires c.Valid() && Wf(t, h, c, false)
    ensures h >= 1 && |InOrder(t)| >= LeastEntries(h, c)
    decreases t
  {
    match t
    case LeafT(_, es) =>
    case InnerT(_, keys, kids) =>
      assert AllWf(kids, h - 1, c);
      var least := LeastEntries(h - 1, c);
      forall i | 0 <= i < |kids| ensures |InOrder(kids[i])| >= least {
        SubtreeOccupancy(kids[i], h - 1, c);
      }
      ConcatAtLeast(kids, least);
      MulMono(c.node / 2 + 1, |kids|, least);
      LeastStep(h, c);
  }

  lemma LeastStep(h: nat, c: Capacity)
    requires h >= 2
    ensures LeastEntries(h, c) == (c.node / 2 + 1) * LeastEntries(h - 1, c)
  {
  }

  /** The height of an index is logarithmic in its size: with height h >= 2 it holds at
      least 2 * (N/2 + 1)^(h - 2) * ((L + 1)/2) entries. */
  lemma HeightBound(t: Tree, h: nat, c: Capacity)
    requires c.Valid() && Wf(t, h, c, true) && h >= 2
    ensures |InOrder(t)| >= 2 * (Pow(c.node / 2 + 1, h - 2) * ((c.leaf + 1) / 2))
  {
    var least := LeastEntries(h - 1, c);
    assert AllWf(t.kids, h - 1, c);
    forall i | 0 <= i < |t.kids| ensures |InOrder(t.kids[i])| >= least {
      SubtreeOccupancy(t.kids[i], h - 1, c);
    }
    ConcatAtLeast(t.kids, least);
    MulMono(2, |t.kids|, least);
  }

  // -------------------------------------------------------- runs of inserts

  /** A run of insertions loses nothing, invents nothing and keeps key order. */
  lemma {:induction false} InsertAllSorts(es: seq<Entry>)
    ensures multiset(InsertAll([], es)) == multiset(es) && Sorted(InsertAll([], es))
  {
    if es != [] {
      var n := |es| - 1;
      assert es == es[..n] + [es[n]];
      InsertAllSorts(es[..n]);
      InsertSortedCounts(InsertAll([], es[..n]), es[n]);
      InsertSortedKeepsSorted(InsertAll([], es[..n]), es[n]);
    }
  }

  /** Entries with equal keys stay in the order they were inserted. */
  lemma {:induction false} InsertSortedStable(s: seq<Entry>, e: Entry, k: int)
    requires Sorted(s)
    ensures WithKey(InsertSorted(s, e), k) == WithKey(s, k) + (if e.key == k then [e] else [])
  {
    if s == [] {
      assert [e] + s == [e];
    } else if e.key < s[0].key {
      assert ([e] + s)[1..] == s;
      if e.key == k {
        NoneWithKey(s, k);
      }
    } else {
      InsertSortedStable(s[1..], e, k);
    }
  }

  function WithKey(s: seq<Entry>, k: int): seq<Entry> {
    if s == [] then [] else if s[0].key == k then [s[0]] + WithKey(s[1..], k) else WithKey(s[1..], k)
  }

  lemma {:induction false} NoneWithKey(s: seq<Entry>, k: int)
    requires forall i :: 0 <= i < |s| ==> s[i].key != k
    ensures WithKey(s, k) == []
  {
    if s != [] {
      NoneWithKey(s[1..], k);
    }
  }

  lemma {:induction false} InsertAllStable(es: seq<Entry>, k: int)
    ensures WithKey(InsertAll([], es), k) == WithKey(es, k)
  {
    if es != [] {
      var n := |es| - 1;
      hide InsertSorted, Sorted, WithKey;
      InsertAllStable(es[..n], k);
      InsertAllSorts(es[..n]);
      InsertSortedStable(InsertAll([], es[..n]), es[n], k);
      assert es == es[..n] + [es[n]];
      WithKeyAppend(es[..n], [es[n]], k);
      WithKeyOne(es[n], k);
    } else {
      NoneWithKey([], k);
    }
  }

  lemma WithKeyOne(e: Entry, k: int)
    ensures WithKey([e], k) == if e.key == k then [e] else []
  {
  }

  lemma {:induction false} WithKeyAppend(a: seq<Entry>, b: seq<Entry>, k: int)
    ensures WithKey(a + b, k) == WithKey(a, k) + WithKey(b, k)
  {
    if a == [] {
      assert a + b == b;
    } else {
      assert (a + b)[1..] == a[1..] + b;
      WithKeyAppend(a[1..], b, k);
    }
  }

  // --------------------------------------------------------------- the chain

  /** Walking the sibling numbers from the leftmost leaf meets every leaf in order and
      yields the sorted contents of the index. */
  lemma LeafChain(pm: PageMap, next: PageId, t: Tree, h: nat, c: Capacity, header: PageId)
    requires Holds(pm, next, t, h, c, header) && INVALID_NUMBER !in pm
    ensures Chain(pm, FirstLeaf(t), Leaves(t), c)
    ensures Flatten(Leaves(t)) == InOrder(t) && Sorted(Flatten(Leaves(t)))
  {
    RepChain(pm, t, INVALID_NUMBER, h, c, true, []);
    assert Leaves(t) + [] == Leaves(t);
    FlattenLeaves(t);
  }

  // ------------------------------------------------- where the scan goes wrong

  /** An inclusive upper bound on a single matching key is missed. */
  lemma MissesUpperBound()
    ensures var t, c, q := LeafT(2, [Entry(5, RecordId(1, 1))]), Capacity(3, 3), Query(1, GTE, 5, LTE);
      && Wf(t, 1, c, true) && q.Valid()
      && InRange(InOrder(t), q) == [Entry(5, RecordId(1, 1))]
      && ScanStart(t, c, q) == NoSuchKey
  {
    var es := [Entry(5, RecordId(1, 1))];
    assert es[1..] == [];
    assert InRange(es, Query(1, GTE, 5, LTE)) == es;
    assert StartIn(es[1..], [], Query(1, GTE, 5, LTE), false) == NoSuchKey;
  }

  /** An empty half-open range returns its bound. */
  lemma ReturnsExcludedBound()
    ensures var t, c, q := LeafT(2, [Entry(5, RecordId(1, 1))]), Capacity(3, 3), Query(5, GTE, 5, LT);
      && Wf(t, 1, c, true) && q.Valid()
      && InRange(InOrder(t), q) == []
      && Answer(ScanStart(t, c, q)) == [Entry(5, RecordId(1, 1))]
  {
  }

  /** A range query that starts on page 0 although its range holds the entry 5: the root is
      fresh and the low bound is above its one separator. */
  lemma LosesTheWay()
    ensures var c, q := Capacity(2, 3), Query(4, GTE, 6, LTE);
            var t := InnerT(4, [3], [LeafT(2, [Entry(1, RecordId(1, 1)), Entry(2, RecordId(1, 2))]),
                                     LeafT(3, [Entry(3, RecordId(1, 3)), Entry(5, RecordId(1, 4))])]);
            && Wf(t, 2, c, true) && q.Valid() && ScanStart(t, c, q) == LostWay
            && InRange(InOrder(t), q) == [Entry(5, RecordId(1, 4))]
  {
    var q := Query(4, GTE, 6, LTE);
    var l, r := LeafT(2, [Entry(1, RecordId(1, 1)), Entry(2, RecordId(1, 2))]),
                LeafT(3, [Entry(3, RecordId(1, 3)), Entry(5, RecordId(1, 4))]);
    ConcatPair(l, r);
    assert FirstKeyIs(r, 3) && AllWf([l, r], 1, Capacity(2, 3));
    InRangeAppend(l.entries, r.entries, q);
    assert l.entries[1..] == [l.entries[1]] && r.entries[1..] == [r.entries[1]];
    assert InRange(l.entries[1..], q) == [] && InRange(r.entries[1..], q) == [r.entries[1]];
  }

  /** Both upper bounds admit the same of these entries. */
  predicate SameBound(s: seq<Entry>, q: Query, q1: Query) {
    forall i :: 0 <= i < |s| ==> (q.BelowHigh(s[i].key) <==> q1.BelowHigh(s[i].key))
  }

  /** A rejected range leaves a running scan on its new upper bound. What the scan still
      returns is the same exactly when the two bounds agree on every entry ahead. */
  lemma {:induction false} RejectedRange(rest: seq<Entry>, q: Query, q1: Query)
    requires Sorted(rest)
    ensures TakeBelow(rest, q1) == TakeBelow(rest, q) <==> SameBound(rest, q, q1)
  {
    if rest != [] {
      var tail := rest[1..];
      assert forall i :: 0 <= i < |tail| ==> tail[i] == rest[i + 1];
      RejectedRange(tail, q, q1);
      if q.BelowHigh(rest[0].key) && q1.BelowHigh(rest[0].key) {
        assert TakeBelow(rest, q)[1..] == TakeBelow(tail, q) && TakeBelow(rest, q1)[1..] == TakeBelow(tail, q1);
        assert forall i :: 0 < i < |rest| ==> rest[i] == tail[i - 1];
      }
    }
  }

  /** The same for the running scan itself. */
  lemma PendingSurvives(ahead: seq<seq<Entry>>, at: int, q: Query, q1: Query)
    requires ahead != [] && (at == -1 || 0 <= at < |ahead[0]|) && Sorted(Flatten(ahead))
    ensures at == -1 ==> PendingOf(ahead, at, q1) == PendingOf(ahead, at, q) == []
    ensures at >= 0 ==>
      (PendingOf(ahead, at, q1) == PendingOf(ahead, at, q) <==> SameBound(AfterFirst(ahead, at), q, q1))
  {
    hide TakeBelow, SameBound, Flatten, Sorted, PendingOf;
    if at >= 0 {
      var rest := AfterFirst(ahead, at);
      PendingIs(ahead, at, q);
      PendingIs(ahead, at, q1);
      RejectedRange(rest, q, q1);
      SameTails([ahead[0][at]], TakeBelow(rest, q), TakeBelow(rest, q1));
    } else {
      DonePending(ahead, q);
      DonePending(ahead, q1);
    }
  }

  /** What lies behind the entry the scan stands on. */
  function AfterFirst(ahead: seq<seq<Entry>>, at: nat): seq<Entry>
    requires ahead != [] && at < |ahead[0]|
  {
    ahead[0][at + 1..] + Flatten(ahead[1..])
  }

  lemma PendingIs(ahead: seq<seq<Entry>>, at: nat, q: Query)
    requires ahead != [] && at < |ahead[0]| && Sorted(Flatten(ahead))
    ensures PendingOf(ahead, at, q) == [ahead[0][at]] + TakeBelow(AfterFirst(ahead, at), q)
    ensures Sorted(AfterFirst(ahead, at))
  {
    hide TakeBelow, Flatten;
    FlattenHead(ahead);
    assert (ahead[0] + Flatten(ahead[1..]))[at + 1..] == AfterFirst(ahead, at);
    SortedFrom(ahead[0] + Flatten(ahead[1..]), at + 1);
  }

  lemma FlattenHead(ls: seq<seq<Entry>>)
    requires ls != []
    ensures Flatten(ls) == ls[0] + Flatten(ls[1..])
  {
  }

  lemma SortedFrom(s: seq<Entry>, n: nat)
    requires Sorted(s) && n <= |s|
    ensures Sorted(s[n..])
  {
  }

  lemma SameTails(head: seq<Entry>, a: seq<Entry>, b: seq<Entry>)
    ensures head + a == head + b <==> a == b
  {
    assert (head + a)[|head|..] == a && (head + b)[|head|..] == b;
  }

  /** A new bound that the second pending entry does not meet leaves the first alone. */
  lemma CutShort(ahead: seq<seq<Entry>>, at: int, q: Query, q1: Query)
    requires |PendingOf(ahead, at, q)| > 1 && !q1.BelowHigh(PendingOf(ahead, at, q)[1].key)
    ensures PendingOf(ahead, at, q1) == PendingOf(ahead, at, q)[..1]
  {
  }

  // ------------------------------------------------- from an index to answers

  lemma PowAtLeast(b: nat, e: nat)
    requires b >= 1
    ensures Pow(b, e) >= 1 && (e >= 1 ==> Pow(b, e) >= b)
  {
    if e > 0 {
      PowAtLeast(b, e - 1);
      MulMono(1, Pow(b, e - 1), b);
    }
  }

  /** An index too small to fill two leaves is one leaf. */
  lemma OneLeaf(t: Tree, h: nat, c: Capacity)
    requires c.Valid() && Wf(t, h, c, true) && |InOrder(t)| < 2 * ((c.leaf + 1) / 2)
    ensures t.LeafT?
  {
    if t.InnerT? {
      HeightBound(t, h, c);
      PowAtLeast(c.node / 2 + 1, h - 2);
      MulMono(1, Pow(c.node / 2 + 1, h - 2), (c.leaf + 1) / 2);
    }
  }

  /** Two entries at one entry a leaf: a root with the second key. */
  lemma TwoLeaves(t: Tree, h: nat, c: Capacity)
    requires c.Valid() && c.leaf == 1 && Wf(t, h, c, true) && |InOrder(t)| == 2
    ensures t.InnerT? && t.keys == [InOrder(t)[1].key]
  {
    if t.InnerT? {
      HeightBound(t, h, c);
      if h > 2 {
        PowAtLeast(c.node / 2 + 1, h - 2);
      }
      assert AllWf(t.kids, 1, c);
      assert forall i :: 0 <= i < |t.kids| ==> t.kids[i].LeafT? && |InOrder(t.kids[i])| == 1;
      ConcatAtLeast(t.kids, 1);
      assert |t.kids| == 2 && t.kids == [t.kids[0], t.kids[1]];
      ConcatPair(t.kids[0], t.kids[1]);
      assert FirstKeyIs(t.kids[0 + 1], t.keys[0]);
      assert InOrder(t)[1] == InOrder(t.kids[1])[0];
    }
  }

  lemma TwoInOrder(a: Entry, b: Entry)
    requires a.key < b.key
    ensures InsertAll([], [a, b]) == [a, b] && StrictlySorted([a, b])
  {
    assert [a, b][..1] == [a] && [a][..0] == [];
    assert InsertAll([], [a]) == [a];
    assert [a][1..] == [];
    assert InsertSorted([a], b) == [a] + InsertSorted([], b);
  }

  /** Builds an index over some records, inserts more, and answers a range query: exactly the
      entries in range among all of them if and only if the guard holds, with no pin left but
      a scan's that found nothing. */
  method QueryAfterInserts(c: Capacity, records: seq<Entry>, more: seq<Entry>, q: Query)
    returns (index: BTreeIndex, out: StartOutcome, rids: seq<RecordId>, ghost got: seq<Entry>)
    requires c.Valid() && q.Valid()
    requires forall e :: e in records + more ==> e.rid.pageNumber != INVALID_NUMBER && e.key <= INT_MAX
    requires StrictlySorted(InsertAll([], records + more))
    ensures Answered(out) && got == InRange(InsertAll([], records + more), q) <==> ScanGuard(index.tree, c, q)
    ensures rids == RidsOf(got) && |rids| == |got| && forall i :: 0 <= i < |got| ==> rids[i] == got[i].rid
    ensures ScanGuard(index.tree, c, q) ==> forall e ::
      e in got <==> e in InsertAll([], records + more) && Asked(e.key, q.low, q.lowOp, q.high, q.highOp)
    ensures Wf(index.tree, index.height, c, true)
    ensures InOrder(index.tree) == InsertAll([], records + more)
    ensures out == ScanStarted ==> index.file.pins == multiset{}
  {
    hide InsertAll, StrictlySorted, ScanGuard, InRange, RidsOf, InOrder, Holds, Wf, KeysFit, RidsDistinct;
    InsertAllTwice(records, more);
    InsertAllKeysFit(records + more);
    assert forall i :: 0 <= i < |records| ==> records[i] in records + more;
    assert forall i :: 0 <= i < |more| ==> more[i] in records + more;
    index := new BTreeIndex(c, records);
    index.Load(more);
    HoldsRoot(index.file.pages, index.file.numPages, index.tree, index.height, c, index.headerPageNum);
    out, rids, got := index.RunScan(q.low, q.lowOp, q.high, q.highOp, multiset{});
  }

  lemma {:induction false} InsertAllTwice(a: seq<Entry>, b: seq<Entry>)
    ensures InsertAll(InsertAll([], a), b) == InsertAll([], a + b)
  {
    if b == [] {
      assert a + b == a;
    } else {
      var n := |b| - 1;
      InsertAllTwice(a, b[..n]);
      assert (a + b)[..|a + b| - 1] == a + b[..n];
    }
  }

  lemma InsertAllKeysFit(es: seq<Entry>)
    requires forall e :: e in es ==> e.key <= INT_MAX
    ensures KeysFit(InsertAll([], es))
  {
    InsertAllSorts(es);
    var s := InsertAll([], es);
    forall i | 0 <= i < |s| ensures s[i].key <= INT_MAX {
      assert s[i] in multiset(s);
      assert s[i] in multiset(es);
    }
  }

  /** Two insertions into an index of one-entry leaves, and a query above both: the descent
      reads page 0. */
  method QueryReadsPageZero() returns (index: BTreeIndex, out: StartOutcome)
    ensures out == PageZero
  {
    hide Holds, InOrder, Wf, StrictlySorted, InsertAll;
    var a, b := Entry(1, RecordId(1, 1)), Entry(2, RecordId(1, 2));
    TwoInOrder(a, b);
    index := new BTreeIndex(Capacity(1, 3), [a, b]);
    HoldsRoot(index.file.pages, index.file.numPages, index.tree, index.height, index.file.c, index.headerPageNum);
    TwoLeaves(index.tree, index.height, index.file.c);
    out := index.StartScan(3, GTE, 5, LTE, multiset{});
  }

  /** A scan over 3 and 7 that a rejected range cuts short: it returns 3 and then says it is
      complete. */
  method RejectedRangeCutsScan() returns (first: NextOutcome, second: NextOutcome)
    ensures first == Next(RecordId(1, 1)) && second == IndexScanCompleted
  {
    hide Holds, InOrder, Wf, StrictlySorted, InsertAll, PendingOf, ScanStart;
    var a, b := Entry(3, RecordId(1, 1)), Entry(7, RecordId(1, 2));
    TwoInOrder(a, b);
    var index := new BTreeIndex(Capacity(3, 3), [a, b]);
    HoldsRoot(index.file.pages, index.file.numPages, index.tree, index.height, index.file.c, index.headerPageNum);
    OneLeaf(index.tree, index.height, index.file.c);
    StartsOnBoth(index.tree, index.file.c, a, b);
    var started := index.StartScan(1, GTE, 10, LTE, multiset{});
    CutShort(index.ahead, index.nextEntry, Query(1, GTE, 10, LTE), Query(20, GTE, 5, LTE));
    var rejected := index.StartScan(20, GTE, 5, LTE, multiset{});
    first := index.ScanNext(multiset{});
    second := index.ScanNext(multiset{});
  }

  lemma StartsOnBoth(t: Tree, c: Capacity, a: Entry, b: Entry)
    requires c == Capacity(3, 3) && t.LeafT? && InOrder(t) == [a, b] && a.key == 3 && b.key == 7
    ensures ScanStart(t, c, Query(1, GTE, 10, LTE)) == Started([a, b]) && !Lost(t, c, 1)
  {
    var q := Query(1, GTE, 10, LTE);
    assert [a, b][1..] == [b] && [b][1..] == [] && [b] + [] == [b];
    assert TakeBelow([b], q) == [b];
  }
}
