/** The B+ tree as a mathematical tree: what insertion means, with no pages,
    arrays or sentinels, and the invariants it keeps. */
module BTreeSpec {
  import opened Storage

  datatype Entry = Entry(key: int, rid: RecordId)

  /** leafOccupancy and nodeOccupancy. */
  datatype Capacity = Capacity(leaf: nat, node: nat) {
    predicate Valid() {
      leaf >= 1 && node >= 2
    }
  }

  datatype Tree =
    | LeafT(pid: PageId, entries: seq<Entry>)
    | InnerT(pid: PageId, keys: seq<int>, kids: seq<Tree>)

  /** What an insertion leaves in place of a subtree: one tree, or two trees and
      the key that separates them. */
  datatype Grown =
    | Whole(tree: Tree)
    | Halves(left: Tree, key: int, right: Tree)

  // ---------------------------------------------------------------- contents

  function InOrder(t: Tree): seq<Entry>
    decreases t, 1
  {
    match t
    case LeafT(_, entries) => entries
    case InnerT(_, _, kids) => Concat(kids)
  }

  function Concat(ts: seq<Tree>): seq<Entry>
    decreases ts, 0
  {
    if ts == [] then [] else InOrder(ts[0]) + Concat(ts[1..])
  }

  function GrownContents(g: Grown): seq<Entry> {
    match g
    case Whole(t) => InOrder(t)
    case Halves(l, _, r) => InOrder(l) + InOrder(r)
  }

  ghost predicate Sorted(s: seq<Entry>) {
    forall i, j :: 0 <= i < j < |s| ==> s[i].key <= s[j].key
  }

  ghost predicate StrictlySorted(s: seq<Entry>) {
    forall i, j :: 0 <= i < j < |s| ==> s[i].key < s[j].key
  }

  /** The reference: put e behind every entry whose key is not above its own. */
  function InsertSorted(s: seq<Entry>, e: Entry): (r: seq<Entry>)
    ensures |r| == |s| + 1
  {
    if s == [] || e.key < s[0].key then [e] + s else [s[0]] + InsertSorted(s[1..], e)
  }

  /** The reference for a whole run of insertions. */
  function InsertAll(s: seq<Entry>, es: seq<Entry>): seq<Entry> {
    if es == [] then s else InsertSorted(InsertAll(s, es[..|es| - 1]), es[|es| - 1])
  }

  /** How many leading keys are at most k. */
  function UpperIndex(keys: seq<int>, k: int): (r: nat)
    ensures r <= |keys|
    ensures forall i :: 0 <= i < r ==> keys[i] <= k
    ensures r < |keys| ==> k < keys[r]
  {
    if keys == [] || k < keys[0] then 0 else 1 + UpperIndex(keys[1..], k)
  }

  // --------------------------------------------------------------- insertion

  function LeafGrown(pid: PageId, es: seq<Entry>, next: PageId, c: Capacity): Grown
    requires c.Valid() && |es| <= c.leaf + 1
  {
    if |es| <= c.leaf then Whole(LeafT(pid, es))
    else
      var cut := c.leaf / 2 + 1;
      Halves(LeafT(pid, es[..cut]), es[cut].key, LeafT(next, es[cut..]))
  }

  function InnerGrown(pid: PageId, ks: seq<int>, ts: seq<Tree>, next: PageId, c: Capacity): Grown
    requires c.Valid() && |ks| <= c.node + 1 && |ts| == |ks| + 1
  {
    if |ks| <= c.node then Whole(InnerT(pid, ks, ts))
    else
      var mid := (c.node + 1) / 2;
      Halves(InnerT(pid, ks[..mid], ts[..mid + 1]), ks[mid], InnerT(next, ks[mid + 1..], ts[mid + 1..]))
  }

  /** An inner node after its child at pos has become `below`. */
  function Absorb(pid: PageId, keys: seq<int>, kids: seq<Tree>, pos: nat, below: Grown, next: PageId,
                  c: Capacity): Grown
    requires c.Valid() && |keys| <= c.node && |kids| == |keys| + 1 && pos < |kids|
  {
    match below
    case Whole(kid) => Whole(InnerT(pid, keys, kids[pos := kid]))
    case Halves(l, k, r) =>
      InnerGrown(pid, keys[..pos] + [k] + keys[pos..], kids[..pos] + [l, r] + kids[pos + 1..], next, c)
  }

  /** Every separator is the smallest key of the subtree on its right. */
  ghost predicate Separators(keys: seq<int>, kids: seq<Tree>) {
    && |kids| == |keys| + 1
    && forall i :: 0 <= i < |keys| ==> FirstKeyIs(kids[i + 1], keys[i])
  }

  ghost predicate FirstKeyIs(t: Tree, k: int) {
    InOrder(t) != [] && InOrder(t)[0].key == k
  }

  /** All leaves h levels down, every node within its capacity, every node but the
      root at least half full, and every separator exact. */
  ghost predicate Wf(t: Tree, h: nat, c: Capacity, root: bool)
    decreases t, 1
  {
    match t
    case LeafT(_, entries) =>
      h == 1 && (if root then 0 else (c.leaf + 1) / 2) <= |entries| <= c.leaf
    case InnerT(_, keys, kids) =>
      && h >= 2
      && (if root then 1 else c.node / 2) <= |keys| <= c.node
      && Separators(keys, kids)
      && AllWf(kids, h - 1, c)
  }

  ghost predicate AllWf(ts: seq<Tree>, h: nat, c: Capacity)
    decreases ts, 0
  {
    forall i :: 0 <= i < |ts| ==> Wf(ts[i], h, c, false)
  }

  ghost predicate GrownWf(g: Grown, h: nat, c: Capacity, root: bool) {
    match g
    case Whole(t) => Wf(t, h, c, root)
    case Halves(l, k, r) => Wf(l, h, c, false) && Wf(r, h, c, false) && FirstKeyIs(r, k)
  }

  /** The subtree t after inserting e, and the next unallocated page number. */
  ghost function Insert(t: Tree, e: Entry, next: PageId, h: nat, c: Capacity, root: bool): (r: (Grown, PageId))
    requires c.Valid() && Wf(t, h, c, root)
    decreases t
  {
    match t
    case LeafT(pid, entries) =>
      var g := LeafGrown(pid, InsertSorted(entries, e), next, c);
      (g, if g.Whole? then next else next + 1)
    case InnerT(pid, keys, kids) =>
      var pos := UpperIndex(keys, e.key);
      assert AllWf(kids, h - 1, c);
      var (below, next1) := Insert(kids[pos], e, next, h - 1, c, false);
      var g := Absorb(pid, keys, kids, pos, below, next1, c);
      (g, if g.Whole? then next1 else next1 + 1)
  }

  /** The whole tree after inserting e: a split root gets a new root above it. */
  ghost function InsertRoot(t: Tree, e: Entry, next: PageId, h: nat, c: Capacity): (r: (Tree, PageId, nat))
    requires c.Valid() && Wf(t, h, c, true)
  {
    var (g, next1) := Insert(t, e, next, h, c, true);
    match g
    case Whole(t1) => (t1, next1, h)
    case Halves(l, k, r) => (InnerT(next1, [k], [l, r]), next1 + 1, h + 1)
  }

  // ------------------------------------------------------------------ lemmas

  lemma {:induction false} ConcatAppend(a: seq<Tree>, b: seq<Tree>)
    ensures Concat(a + b) == Concat(a) + Concat(b)
  {
    if a == [] {
      assert a + b == b;
    } else {
      assert (a + b)[1..] == a[1..] + b;
      ConcatAppend(a[1..], b);
    }
  }

  /** A child list cut around position pos. */
  lemma ConcatAround(ts: seq<Tree>, pos: nat)
    requires pos < |ts|
    ensures Concat(ts) == Concat(ts[..pos]) + InOrder(ts[pos]) + Concat(ts[pos + 1..])
  {
    assert ts == ts[..pos] + ts[pos..];
    ConcatAppend(ts[..pos], ts[pos..]);
  }

  lemma ConcatSplice(ts: seq<Tree>, pos: nat, mid: seq<Tree>)
    requires pos < |ts|
    ensures Concat(ts[..pos] + mid + ts[pos + 1..]) == Concat(ts[..pos]) + Concat(mid) + Concat(ts[pos + 1..])
  {
    ConcatAppend(ts[..pos] + mid, ts[pos + 1..]);
    ConcatAppend(ts[..pos], mid);
  }

  lemma {:induction false} InsertSortedInFront(b: seq<Entry>, d: seq<Entry>, e: Entry)
    requires d == [] || e.key < d[0].key
    ensures InsertSorted(b + d, e) == InsertSorted(b, e) + d
  {
    if b == [] {
      assert b + d == d;
    } else {
      assert (b + d)[1..] == b[1..] + d;
      InsertSortedInFront(b[1..], d, e);
    }
  }

  lemma {:induction false} InsertSortedBehind(a: seq<Entry>, b: seq<Entry>, e: Entry)
    requires forall i :: 0 <= i < |a| ==> a[i].key <= e.key
    ensures InsertSorted(a + b, e) == a + InsertSorted(b, e)
  {
    if a == [] {
      assert a + b == b;
    } else {
      assert (a + b)[1..] == a[1..] + b;
      InsertSortedBehind(a[1..], b, e);
    }
  }

  lemma {:induction false} InsertSortedKeepsSorted(s: seq<Entry>, e: Entry)
    requires Sorted(s)
    ensures Sorted(InsertSorted(s, e))
    ensures s != [] && s[0].key <= e.key ==> InsertSorted(s, e)[0] == s[0]
    ensures InsertSorted(s, e) != [] && (InsertSorted(s, e)[0] == e || (s != [] && InsertSorted(s, e)[0] == s[0]))
  {
    if s != [] && s[0].key <= e.key {
      InsertSortedKeepsSorted(s[1..], e);
    }
  }

  lemma {:induction false} InsertSortedCounts(s: seq<Entry>, e: Entry)
    ensures multiset(InsertSorted(s, e)) == multiset(s) + multiset{e}
  {
    if s == [] || e.key < s[0].key {
    } else {
      InsertSortedCounts(s[1..], e);
      assert s == [s[0]] + s[1..];
    }
  }

  lemma InsertSortedMiddle(a: seq<Entry>, b: seq<Entry>, d: seq<Entry>, e: Entry)
    requires Sorted(a + b + d)
    requires a != [] ==> b != [] && b[0].key <= e.key
    requires d == [] || e.key < d[0].key
    ensures InsertSorted(a + b + d, e) == a + InsertSorted(b, e) + d
    ensures Sorted(b)
  {
    hide Sorted, InsertSorted;
    SortedParts(a, b, d);
    assert forall i :: 0 <= i < |a| ==> a[i].key <= b[0].key;
    assert a + b + d == a + (b + d);
    InsertSortedBehind(a, b + d, e);
    InsertSortedInFront(b, d, e);
    assert a + (InsertSorted(b, e) + d) == a + InsertSorted(b, e) + d;
  }

  /** The child chosen by the separators is where the reference insertion happens. */
  lemma InsertSortedInChild(keys: seq<int>, kids: seq<Tree>, e: Entry, pos: nat)
    requires Separators(keys, kids) && Sorted(Concat(kids)) && pos == UpperIndex(keys, e.key)
    ensures InsertSorted(Concat(kids), e)
         == Concat(kids[..pos]) + InsertSorted(InOrder(kids[pos]), e) + Concat(kids[pos + 1..])
    ensures Sorted(InOrder(kids[pos]))
    ensures pos > 0 ==> FirstKeyIs(kids[pos], keys[pos - 1]) && keys[pos - 1] <= e.key
  {
    ConcatAround(kids, pos);
    if pos > 0 {
      assert FirstKeyIs(kids[pos - 1 + 1], keys[pos - 1]);
    }
    if pos < |keys| {
      assert FirstKeyIs(kids[pos + 1], keys[pos]);
      assert kids[pos + 1..][0] == kids[pos + 1];
    }
    InsertSortedMiddle(Concat(kids[..pos]), InOrder(kids[pos]), Concat(kids[pos + 1..]), e);
  }

  lemma SortedParts(a: seq<Entry>, b: seq<Entry>, d: seq<Entry>)
    requires Sorted(a + b + d)
    ensures Sorted(b)
    ensures forall i, j :: 0 <= i < |a| && 0 <= j < |b| ==> a[i].key <= b[j].key
  {
    var s := a + b + d;
    forall i, j | 0 <= i < j < |b| ensures b[i].key <= b[j].key {
      assert s[|a| + i] == b[i] && s[|a| + j] == b[j];
    }
    forall i, j | 0 <= i < |a| && 0 <= j < |b| ensures a[i].key <= b[j].key {
      assert s[i] == a[i] && s[|a| + j] == b[j];
    }
  }

  lemma InnerGrownMeans(pid: PageId, ks: seq<int>, ts: seq<Tree>, next: PageId, c: Capacity)
    requires c.Valid() && |ks| <= c.node + 1 && |ts| == |ks| + 1
    ensures GrownContents(InnerGrown(pid, ks, ts, next, c)) == Concat(ts)
  {
    if |ks| > c.node {
      var mid := (c.node + 1) / 2;
      assert ts == ts[..mid + 1] + ts[mid + 1..];
      ConcatAppend(ts[..mid + 1], ts[mid + 1..]);
    }
  }

  lemma {:induction false} WfNotEmpty(t: Tree, h: nat, c: Capacity)
    requires c.Valid() && Wf(t, h, c, false)
    ensures InOrder(t) != []
    decreases t
  {
    match t
    case LeafT(_, _) =>
    case InnerT(_, _, kids) => WfNotEmpty(kids[0], h - 1, c);
  }

  lemma InnerGrownWf(pid: PageId, ks: seq<int>, ts: seq<Tree>, next: PageId, h: nat, c: Capacity, root: bool)
    requires c.Valid() && h >= 2 && Separators(ks, ts) && AllWf(ts, h - 1, c)
    requires (if root then 1 else c.node / 2) <= |ks| <= c.node + 1
    ensures GrownWf(InnerGrown(pid, ks, ts, next, c), h, c, root)
  {
  }

  lemma ReplaceChild(keys: seq<int>, kids: seq<Tree>, pos: nat, kid: Tree)
    requires Separators(keys, kids) && pos < |kids|
    requires pos > 0 ==> FirstKeyIs(kid, keys[pos - 1])
    ensures Separators(keys, kids[pos := kid])
    ensures kids[pos := kid] == kids[..pos] + [kid] + kids[pos + 1..]
    ensures Concat(kids[pos := kid]) == Concat(kids[..pos]) + InOrder(kid) + Concat(kids[pos + 1..])
  {
    assert kids[pos := kid] == kids[..pos] + [kid] + kids[pos + 1..];
    ConcatSplice(kids, pos, [kid]);
  }

  lemma SpliceChild(keys: seq<int>, kids: seq<Tree>, pos: nat, l: Tree, k: int, r: Tree)
    requires Separators(keys, kids) && pos < |kids|
    requires FirstKeyIs(r, k) && (pos > 0 ==> FirstKeyIs(l, keys[pos - 1]))
    ensures Separators(keys[..pos] + [k] + keys[pos..], kids[..pos] + [l, r] + kids[pos + 1..])
    ensures Concat(kids[..pos] + [l, r] + kids[pos + 1..])
         == Concat(kids[..pos]) + (InOrder(l) + InOrder(r)) + Concat(kids[pos + 1..])
  {
    ConcatSplice(kids, pos, [l, r]);
    ConcatAppend([l], [r]);
    assert [l, r] == [l] + [r];
    var ks, ts := keys[..pos] + [k] + keys[pos..], kids[..pos] + [l, r] + kids[pos + 1..];
    forall i | 0 <= i < |ks| ensures FirstKeyIs(ts[i + 1], ks[i]) {
      if i + 1 < pos {
        assert FirstKeyIs(kids[i + 1], keys[i]);
      } else if i > pos {
        assert FirstKeyIs(kids[i - 1 + 1], keys[i - 1]);
      }
    }
  }

  lemma AllWfSplice(ts: seq<Tree>, pos: nat, mid: seq<Tree>, h: nat, c: Capacity)
    requires AllWf(ts, h, c) && AllWf(mid, h, c) && pos < |ts|
    ensures AllWf(ts[..pos] + mid + ts[pos + 1..], h, c)
  {}

  /** An inner node's own step, given what happened below. */
  lemma AbsorbKeeps(pid: PageId, keys: seq<int>, kids: seq<Tree>, pos: nat, below: Grown, next: PageId, h: nat,
                    c: Capacity, root: bool)
    requires c.Valid() && Wf(InnerT(pid, keys, kids), h, c, root) && pos < |kids| && GrownWf(below, h - 1, c, false)
    requires pos > 0 ==> GrownContents(below) != [] && GrownContents(below)[0].key == keys[pos - 1]
    ensures GrownContents(Absorb(pid, keys, kids, pos, below, next, c))
         == Concat(kids[..pos]) + GrownContents(below) + Concat(kids[pos + 1..])
    ensures GrownWf(Absorb(pid, keys, kids, pos, below, next, c), h, c, root)
  {
    match below
    case Whole(kid) =>
      ReplaceChild(keys, kids, pos, kid);
      AllWfSplice(kids, pos, [kid], h - 1, c);
    case Halves(l, k, r) =>
      WfNotEmpty(l, h - 1, c);
      SpliceChild(keys, kids, pos, l, k, r);
      AllWfSplice(kids, pos, [l, r], h - 1, c);
      var ks, ts := keys[..pos] + [k] + keys[pos..], kids[..pos] + [l, r] + kids[pos + 1..];
      InnerGrownMeans(pid, ks, ts, next, c);
      InnerGrownWf(pid, ks, ts, next, h, c, root);
  }

  lemma AbsorbInsert(t: Tree, e: Entry, below: Grown, next: PageId, h: nat, c: Capacity, root: bool)
    requires c.Valid() && t.InnerT? && Wf(t, h, c, root) && Sorted(Concat(t.kids))
    requires GrownWf(below, h - 1, c, false)
    requires GrownContents(below) == InsertSorted(InOrder(t.kids[UpperIndex(t.keys, e.key)]), e)
    ensures GrownContents(Absorb(t.pid, t.keys, t.kids, UpperIndex(t.keys, e.key), below, next, c))
         == InsertSorted(InOrder(t), e)
    ensures GrownWf(Absorb(t.pid, t.keys, t.kids, UpperIndex(t.keys, e.key), below, next, c), h, c, root)
  {
    var pos := UpperIndex(t.keys, e.key);
    InsertSortedInChild(t.keys, t.kids, e, pos);
    InsertSortedKeepsSorted(InOrder(t.kids[pos]), e);
    AbsorbKeeps(t.pid, t.keys, t.kids, pos, below, next, h, c, root);
  }

  lemma LeafGrownMeans(pid: PageId, es: seq<Entry>, next: PageId, c: Capacity, root: bool)
    requires c.Valid() && (if root then 0 else (c.leaf + 1) / 2) <= |es| <= c.leaf + 1
    ensures GrownContents(LeafGrown(pid, es, next, c)) == es
    ensures GrownWf(LeafGrown(pid, es, next, c), 1, c, root)
  {
  }

  /** Main invariant step: the tree's in-order contents change exactly as the
      reference insertion says, and the tree stays well formed. */
  lemma {:induction false} InsertCorrect(t: Tree, e: Entry, next: PageId, h: nat, c: Capacity, root: bool)
    requires c.Valid() && Wf(t, h, c, root) && Sorted(InOrder(t))
    ensures GrownContents(Insert(t, e, next, h, c, root).0) == InsertSorted(InOrder(t), e)
    ensures GrownWf(Insert(t, e, next, h, c, root).0, h, c, root)
    decreases t
  {
    match t
    case LeafT(pid, entries) =>
      LeafGrownMeans(pid, InsertSorted(entries, e), next, c, root);
    case InnerT(_, keys, kids) =>
      var pos := UpperIndex(keys, e.key);
      var (below, next1) := Insert(kids[pos], e, next, h - 1, c, false);
      InsertSortedInChild(keys, kids, e, pos);
      InsertCorrect(kids[pos], e, next, h - 1, c, false);
      AbsorbInsert(t, e, below, next1, h, c, root);
  }
}
