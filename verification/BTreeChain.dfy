/** The leaf chain of an index, and the leaf a scan descends to. */
module BTreeChain {
  import opened Storage
  import opened BTreeSpec
  import opened BTreePages
  import opened BTreeRep
  import opened BTreeScanSpec

  // --------------------------------------------------------------- the chain

  /** The entries of the leaves, leaf by leaf. */
  function Leaves(t: Tree): seq<seq<Entry>>
    decreases t, 1
  {
    match t
    case LeafT(_, es) => [es]
    case InnerT(_, _, kids) => LeavesAll(kids)
  }

  function LeavesAll(ts: seq<Tree>): seq<seq<Entry>>
    decreases ts, 0
  {
    if ts == [] then [] else Leaves(ts[0]) + LeavesAll(ts[1..])
  }

  function Flatten(ls: seq<seq<Entry>>): seq<Entry> {
    if ls == [] then [] else ls[0] + Flatten(ls[1..])
  }

  /** Following sibling numbers from page pid meets leaves holding ls and then ends. */
  ghost predicate Chain(pm: PageMap, pid: PageId, ls: seq<seq<Entry>>, c: Capacity)
    decreases |ls|
  {
    if ls == [] then pid == INVALID_NUMBER
    else
      && pid != INVALID_NUMBER && pid in pm && pm[pid].LeafImage?
      && LeafHolds(pm[pid], ls[0], pm[pid].rightSib, c)
      && Chain(pm, pm[pid].rightSib, ls[1..], c)
  }

  lemma {:induction false} FlattenAppend(a: seq<seq<Entry>>, b: seq<seq<Entry>>)
    ensures Flatten(a + b) == Flatten(a) + Flatten(b)
  {
    if a == [] {
      assert a + b == b;
    } else {
      assert (a + b)[1..] == a[1..] + b;
      FlattenAppend(a[1..], b);
    }
  }

  lemma {:induction false} FlattenLeaves(t: Tree)
    ensures Flatten(Leaves(t)) == InOrder(t)
    decreases t, 1
  {
    match t
    case LeafT(_, es) => assert Flatten([es]) == es + Flatten([]);
    case InnerT(_, _, kids) => FlattenLeavesAll(kids);
  }

  lemma {:induction false} FlattenLeavesAll(ts: seq<Tree>)
    ensures Flatten(LeavesAll(ts)) == Concat(ts)
    decreases ts, 0
  {
    if ts != [] {
      FlattenLeaves(ts[0]);
      FlattenLeavesAll(ts[1..]);
      FlattenAppend(Leaves(ts[0]), LeavesAll(ts[1..]));
    }
  }

  /** The leaves of a laid-out subtree, then whatever chain follows it. */
  lemma {:induction false} RepChain(pm: PageMap, t: Tree, after: PageId, h: int, c: Capacity, root: bool,
                                    rest: seq<seq<Entry>>)
    requires Rep(pm, t, after, h, c, root) && Chain(pm, after, rest, c) && INVALID_NUMBER !in pm
    ensures Chain(pm, FirstLeaf(t), Leaves(t) + rest, c)
    decreases t, 1
  {
    match t
    case LeafT(_, es) =>
      assert ([es] + rest)[1..] == rest;
    case InnerT(_, _, kids) =>
      RepChainAll(pm, kids, after, h - 1, c, rest);
  }

  lemma {:induction false} RepChainAll(pm: PageMap, ts: seq<Tree>, after: PageId, h: int, c: Capacity,
                                       rest: seq<seq<Entry>>)
    requires RepAll(pm, ts, after, h, c) && Chain(pm, after, rest, c) && INVALID_NUMBER !in pm
    ensures Chain(pm, FirstOf(ts, after), LeavesAll(ts) + rest, c)
    decreases ts, 0
  {
    hide Rep, Chain, Leaves;
    if ts == [] {
      assert LeavesAll(ts) + rest == rest;
    } else {
      assert ts == [ts[0]] + ts[1..];
      RepAllAppend(pm, [ts[0]], ts[1..], after, h, c);
      RepChainAll(pm, ts[1..], after, h, c, rest);
      RepChain(pm, ts[0], AfterOf(ts, 0, after), h, c, false, LeavesAll(ts[1..]) + rest);
      assert Leaves(ts[0]) + (LeavesAll(ts[1..]) + rest) == LeavesAll(ts) + rest;
    }
  }

  // ------------------------------------------------------------- the descent

  /** The leaf a scan for `low` ends up in, with what lies before and after it. */
  datatype Reach = Reach(before: seq<Entry>, pid: PageId, es: seq<Entry>, later: seq<seq<Entry>>)

  function ReachOf(t: Tree, low: int): Reach
    decreases t
  {
    match t
    case LeafT(pid, es) => Reach([], pid, es, [])
    case InnerT(_, keys, kids) =>
      var pos := UpperIndex(keys, low);
      if pos < |kids| then
        var r := ReachOf(kids[pos], low);
        Reach(Concat(kids[..pos]) + r.before, r.pid, r.es, r.later + LeavesAll(kids[pos + 1..]))
      else Reach([], INVALID_NUMBER, [], [])
  }

  lemma {:induction false} ReachChain(pm: PageMap, t: Tree, low: int, after: PageId, h: int, c: Capacity, root: bool,
                                      rest: seq<seq<Entry>>)
    requires Rep(pm, t, after, h, c, root) && Chain(pm, after, rest, c) && INVALID_NUMBER !in pm
    ensures var r := ReachOf(t, low); Chain(pm, r.pid, [r.es] + (r.later + rest), c)
    decreases t
  {
    hide Chain, Rep, LeavesAll, UpperIndex;
    match t
    case LeafT(_, es) =>
      ReachChainLeaf(pm, t, after, h, c, root, rest);
    case InnerT(_, keys, kids) =>
      var pos := UpperIndex(keys, low);
      KidsCount(pm, t, after, h, c, root);
      var more := LeavesAll(kids[pos + 1..]);
      ChainBehind(pm, t, pos, after, h, c, root, rest);
      ReachChain(pm, kids[pos], low, AfterOf(kids, pos, after), h - 1, c, false, more + rest);
      var r := ReachOf(kids[pos], low);
      assert r.later + (more + rest) == r.later + more + rest;
  }

  lemma KidsCount(pm: PageMap, t: Tree, after: PageId, h: int, c: Capacity, root: bool)
    requires Rep(pm, t, after, h, c, root) && t.InnerT?
    ensures |t.kids| == |t.keys| + 1
  {
  }

  lemma ReachChainLeaf(pm: PageMap, t: Tree, after: PageId, h: int, c: Capacity, root: bool, rest: seq<seq<Entry>>)
    requires Rep(pm, t, after, h, c, root) && Chain(pm, after, rest, c) && INVALID_NUMBER !in pm && t.LeafT?
    ensures Chain(pm, t.pid, [t.entries] + ([] + rest), c)
  {
    assert ([t.entries] + ([] + rest))[1..] == rest;
  }

  /** The chain behind the child at pos. */
  lemma ChainBehind(pm: PageMap, t: Tree, pos: nat, after: PageId, h: int, c: Capacity, root: bool,
                    rest: seq<seq<Entry>>)
    requires Rep(pm, t, after, h, c, root) && t.InnerT? && pos < |t.kids| && Chain(pm, after, rest, c)
    requires INVALID_NUMBER !in pm
    ensures Rep(pm, t.kids[pos], AfterOf(t.kids, pos, after), h - 1, c, false)
    ensures Chain(pm, AfterOf(t.kids, pos, after), LeavesAll(t.kids[pos + 1..]) + rest, c)
  {
    RepAllAround(pm, t.kids, pos, after, h - 1, c);
    RepChainAll(pm, t.kids[pos + 1..], after, h - 1, c, rest);
  }

  lemma StrictParts(a: seq<Entry>, b: seq<Entry>, d: seq<Entry>)
    requires StrictlySorted(a + b + d)
    ensures StrictlySorted(b)
    ensures forall i, j :: 0 <= i < |a| && 0 <= j < |b| ==> a[i].key < b[j].key
    ensures forall i, j :: 0 <= i < |b| && 0 <= j < |d| ==> b[i].key < d[j].key
    ensures StrictlySorted(d)
  {
    var s := a + b + d;
    forall i, j | 0 <= i < j < |b| ensures b[i].key < b[j].key {
      assert s[|a| + i] == b[i] && s[|a| + j] == b[j];
    }
    forall i, j | 0 <= i < j < |d| ensures d[i].key < d[j].key {
      assert s[|a| + |b| + i] == d[i] && s[|a| + |b| + j] == d[j];
    }
    forall i, j | 0 <= i < |a| && 0 <= j < |b| ensures a[i].key < b[j].key {
      assert s[i] == a[i] && s[|a| + j] == b[j];
    }
    forall i, j | 0 <= i < |b| && 0 <= j < |d| ensures b[i].key < d[j].key {
      assert s[|a| + i] == b[i] && s[|a| + |b| + j] == d[j];
    }
  }

  ghost predicate AllBelow(s: seq<Entry>, k: int) {
    forall i :: 0 <= i < |s| ==> s[i].key < k
  }

  ghost predicate AllAbove(s: seq<Entry>, k: int) {
    forall i :: 0 <= i < |s| ==> k < s[i].key
  }

  /** Around the child chosen for low: everything before is below it, everything after above. */
  lemma ChildBrackets(keys: seq<int>, kids: seq<Tree>, low: int, pos: nat)
    requires Separators(keys, kids) && StrictlySorted(Concat(kids)) && pos == UpperIndex(keys, low)
    ensures Concat(kids) == Concat(kids[..pos]) + InOrder(kids[pos]) + Concat(kids[pos + 1..])
    ensures AllBelow(Concat(kids[..pos]), low) && AllAbove(Concat(kids[pos + 1..]), low)
    ensures StrictlySorted(InOrder(kids[pos]))
  {
    ConcatAround(kids, pos);
    var a, b, d := Concat(kids[..pos]), InOrder(kids[pos]), Concat(kids[pos + 1..]);
    StrictParts(a, b, d);
    if pos > 0 {
      assert FirstKeyIs(kids[pos - 1 + 1], keys[pos - 1]);
    }
    if pos < |keys| {
      assert FirstKeyIs(kids[pos + 1], keys[pos]);
      assert kids[pos + 1..][0] == kids[pos + 1];
      assert d[0].key == keys[pos];
    }
  }

  /** r splits s around the place of low. */
  ghost predicate Brackets(r: Reach, s: seq<Entry>, low: int) {
    && s == r.before + r.es + Flatten(r.later)
    && AllBelow(r.before, low) && AllAbove(Flatten(r.later), low)
  }

  lemma BracketsWider(r: Reach, a: seq<Entry>, s: seq<Entry>, ls: seq<seq<Entry>>, low: int)
    requires Brackets(r, s, low) && AllBelow(a, low) && AllAbove(Flatten(ls), low)
    ensures Brackets(Reach(a + r.before, r.pid, r.es, r.later + ls), a + s + Flatten(ls), low)
  {
    FlattenAppend(r.later, ls);
    hide Flatten;
    var d := Flatten(ls);
    assert a + (r.before + r.es + Flatten(r.later)) + d == (a + r.before) + r.es + (Flatten(r.later) + d);
  }

  lemma {:induction false} ReachBrackets(t: Tree, low: int, h: nat, c: Capacity, root: bool)
    requires Wf(t, h, c, root) && StrictlySorted(InOrder(t))
    ensures Brackets(ReachOf(t, low), InOrder(t), low)
    decreases t
  {
    match t
    case LeafT(_, es) =>
      assert [] + es + [] == es;
    case InnerT(_, keys, kids) =>
      hide UpperIndex, Brackets, AllBelow, AllAbove, Flatten, LeavesAll;
      var pos := UpperIndex(keys, low);
      ChildBrackets(keys, kids, low, pos);
      assert AllWf(kids, h - 1, c);
      ReachBrackets(kids[pos], low, h - 1, c, false);
      FlattenLeavesAll(kids[pos + 1..]);
      BracketsWider(ReachOf(kids[pos], low), Concat(kids[..pos]), InOrder(kids[pos]), LeavesAll(kids[pos + 1..]), low);
  }

  /** Separators of distinct keys rise strictly. */
  lemma SeparatorsRise(keys: seq<int>, kids: seq<Tree>, i: nat)
    requires Separators(keys, kids) && StrictlySorted(Concat(kids)) && i + 1 < |keys|
    ensures keys[i] < keys[i + 1]
  {
    assert FirstKeyIs(kids[i + 1], keys[i]) && FirstKeyIs(kids[i + 2], keys[i + 1]);
    ConcatAround(kids, i + 1);
    var d := Concat(kids[i + 2..]);
    assert kids[i + 2..][0] == kids[i + 2];
    assert d[0].key == keys[i + 1];
    StrictParts(Concat(kids[..i + 1]), InOrder(kids[i + 1]), d);
  }

  /** A subtree on the way down to the leaf for low, whose page number is target. */
  ghost predicate OnTheWay(pm: PageMap, t: Tree, after: PageId, h: nat, c: Capacity, root: bool, low: int,
                           target: PageId)
  {
    && Wf(t, h, c, root) && Rep(pm, t, after, h, c, root) && StrictlySorted(InOrder(t)) && ReachOf(t, low).pid == target
  }

  /** What the scan needs to know of an inner page to take the next step down. */
  lemma InnerOnTheWay(pm: PageMap, t: Tree, after: PageId, h: nat, c: Capacity, root: bool, low: int, target: PageId)
    requires OnTheWay(pm, t, after, h, c, root, low, target) && c.Valid()
    ensures t.pid in pm && (t.LeafT? <==> h == 1) && h >= 1
    ensures t.LeafT? ==> t.pid == target
    ensures t.InnerT? ==>
      && InnerHolds(pm[t.pid], LevelOf(h), t.keys, Pids(t.kids), c, root) && t.keys != []
      && (forall i :: 0 <= i < |t.keys| - 1 ==> t.keys[i] < t.keys[i + 1])
      && |t.kids| == |t.keys| + 1
  {
    if t.InnerT? {
      forall i | 0 <= i < |t.keys| - 1 ensures t.keys[i] < t.keys[i + 1] {
        SeparatorsRise(t.keys, t.kids, i);
      }
    }
  }

  lemma StepDown(pm: PageMap, t: Tree, after: PageId, h: nat, c: Capacity, root: bool, low: int, target: PageId)
    requires OnTheWay(pm, t, after, h, c, root, low, target) && t.InnerT? && |t.kids| == |t.keys| + 1
    ensures var pos := UpperIndex(t.keys, low);
      h >= 2 && OnTheWay(pm, t.kids[pos], AfterOf(t.kids, pos, after), h - 1, c, false, low, target)
  {
    var pos := UpperIndex(t.keys, low);
    ChildBrackets(t.keys, t.kids, low, pos);
    assert AllWf(t.kids, h - 1, c) && RepAll(pm, t.kids, after, h - 1, c);
  }

  /** Only the leaf of an index that is a single leaf can be empty. */
  lemma {:induction false} LeavesNotEmpty(t: Tree, h: nat, c: Capacity)
    requires Wf(t, h, c, false) && c.Valid()
    ensures forall i :: 0 <= i < |Leaves(t)| ==> Leaves(t)[i] != []
    decreases t, 1
  {
    if t.InnerT? {
      LeavesAllNotEmpty(t.kids, h - 1, c);
    }
  }

  lemma {:induction false} LeavesAllNotEmpty(ts: seq<Tree>, h: nat, c: Capacity)
    requires AllWf(ts, h, c) && c.Valid()
    ensures forall i :: 0 <= i < |LeavesAll(ts)| ==> LeavesAll(ts)[i] != []
    decreases ts, 0
  {
    if ts != [] {
      LeavesNotEmpty(ts[0], h, c);
      assert AllWf(ts[1..], h, c) by {
        forall i | 0 <= i < |ts| - 1 ensures Wf(ts[1..][i], h, c, false) { assert ts[1..][i] == ts[i + 1]; }
      }
      LeavesAllNotEmpty(ts[1..], h, c);
    }
  }

  lemma {:induction false} LaterNotEmpty(t: Tree, low: int, h: nat, c: Capacity, root: bool)
    requires Wf(t, h, c, root) && c.Valid()
    ensures forall i :: 0 <= i < |ReachOf(t, low).later| ==> ReachOf(t, low).later[i] != []
    decreases t
  {
    if t.InnerT? {
      var pos := UpperIndex(t.keys, low);
      assert AllWf(t.kids, h - 1, c);
      LaterNotEmpty(t.kids[pos], low, h - 1, c, false);
      var right := t.kids[pos + 1..];
      assert AllWf(right, h - 1, c) by {
        forall i | 0 <= i < |right| ensures Wf(right[i], h - 1, c, false) { assert right[i] == t.kids[pos + 1 + i]; }
      }
      LeavesAllNotEmpty(right, h - 1, c);
    }
  }

  /** The chain the scan sees from the leaf it reached. */
  lemma ReachedChain(pm: PageMap, next: PageId, t: Tree, low: int, h: nat, c: Capacity, header: PageId)
    requires Holds(pm, next, t, h, c, header) && forall p :: p in pm ==> p != INVALID_NUMBER
    ensures var r := ReachOf(t, low);
      && Chain(pm, r.pid, [r.es] + r.later, c)
      && forall i :: 0 <= i < |r.later| ==> r.later[i] != []
  {
    var r := ReachOf(t, low);
    LaterNotEmpty(t, low, h, c, true);
    ReachChain(pm, t, low, INVALID_NUMBER, h, c, true, []);
    assert r.later + [] == r.later;
  }

  /** The head of a non-empty run of non-empty leaves, flattened. */
  lemma ChainHead(pm: PageMap, pid: PageId, ls: seq<seq<Entry>>, c: Capacity)
    requires Chain(pm, pid, ls, c) && pid != INVALID_NUMBER && forall i :: 0 <= i < |ls| ==> ls[i] != []
    ensures ls != [] && pid in pm && pm[pid].LeafImage?
    ensures Flatten(ls) != [] && Flatten(ls)[0] == ls[0][0] && Flatten(ls)[1..] == ls[0][1..] + Flatten(ls[1..])
  {}

  // ---------------------------------------------------------- a running scan

  /** A scan at entry `at` of the leaf on page pid (-1 when done); `ahead` lists that
      leaf and the ones behind it. */
  ghost predicate ScanAt(pm: PageMap, pid: PageId, ahead: seq<seq<Entry>>, at: int, c: Capacity) {
    && ahead != [] && Chain(pm, pid, ahead, c)
    && (forall i :: 0 < i < |ahead| ==> ahead[i] != [])
    && (at == -1 || 0 <= at < |ahead[0]|)
  }

  /** What the scan has yet to return. */
  function PendingOf(ahead: seq<seq<Entry>>, at: int, q: Query): seq<Entry> {
    if ahead == [] || at < 0 || at >= |ahead[0]| then []
    else [ahead[0][at]] + TakeBelow(ahead[0][at + 1..] + Flatten(ahead[1..]), q)
  }

  /** Where scanNext goes inside a leaf or at the head of the next one. */
  function Onward(key: int, at: nat, q: Query): int {
    if q.BelowHigh(key) then at else -1
  }

  lemma ScanSees(pm: PageMap, pid: PageId, ahead: seq<seq<Entry>>, at: nat, c: Capacity, q: Query)
    requires ScanAt(pm, pid, ahead, at, c)
    ensures pid in pm && pm[pid].LeafImage? && |pm[pid].keys| == |pm[pid].rids| == c.leaf + 1 && at < c.leaf
    ensures pm[pid].rids[at] == ahead[0][at].rid && PendingOf(ahead, at, q) != []
    ensures PendingOf(ahead, at, q)[0] == ahead[0][at]
    ensures pm[pid].rids[at + 1].pageNumber == INVALID_NUMBER <==> at + 1 == |ahead[0]|
  {
    hide Flatten, TakeBelow;
  }

  lemma ScanStaysInLeaf(pm: PageMap, pid: PageId, ahead: seq<seq<Entry>>, at: nat, c: Capacity, q: Query)
    requires ScanAt(pm, pid, ahead, at, c) && at + 1 < |ahead[0]|
    ensures pid in pm && pm[pid].LeafImage? && at + 1 < |pm[pid].keys|
    ensures var at1 := Onward(pm[pid].keys[at + 1], at + 1, q);
      ScanAt(pm, pid, ahead, at1, c) && PendingOf(ahead, at1, q) == PendingOf(ahead, at, q)[1..]
  {
    hide Flatten;
    var s := ahead[0][at + 1..] + Flatten(ahead[1..]);
    assert s[0] == ahead[0][at + 1] && s[1..] == ahead[0][at + 2..] + Flatten(ahead[1..]);
  }

  lemma ScanLeavesLeaf(pm: PageMap, pid: PageId, ahead: seq<seq<Entry>>, at: nat, c: Capacity, q: Query)
    requires ScanAt(pm, pid, ahead, at, c) && at + 1 == |ahead[0]|
    ensures pid in pm && pm[pid].LeafImage?
    ensures pm[pid].rightSib == INVALID_NUMBER ==> PendingOf(ahead, at, q)[1..] == []
    ensures var sib := pm[pid].rightSib; sib != INVALID_NUMBER ==>
      && sib in pm && pm[sib].LeafImage? && pm[sib].keys != []
      && var at1 := Onward(pm[sib].keys[0], 0, q);
      ScanAt(pm, sib, ahead[1..], at1, c) && PendingOf(ahead[1..], at1, q) == PendingOf(ahead, at, q)[1..]
  {
    var tail, sib := ahead[1..], pm[pid].rightSib;
    assert ahead[0][at + 1..] + Flatten(tail) == Flatten(tail);
    if sib != INVALID_NUMBER {
      assert forall i :: 0 <= i < |tail| ==> tail[i] == ahead[i + 1];
      ChainHead(pm, sib, tail, c);
    }
  }

  /** The scan on the leaf it reached, before it picks an entry. */
  lemma ScanReached(pm: PageMap, next: PageId, t: Tree, h: nat, c: Capacity, header: PageId, q: Query)
    requires Holds(pm, next, t, h, c, header) && forall p :: p in pm ==> p != INVALID_NUMBER
    ensures var r := ReachOf(t, q.low);
      && r.pid in pm && pm[r.pid].LeafImage? && LeafHolds(pm[r.pid], r.es, pm[r.pid].rightSib, c)
      && ScanAt(pm, r.pid, [r.es] + r.later, -1, c)
      && (pm[r.pid].rightSib == INVALID_NUMBER ==> Flatten(r.later) == [])
  {
    var r := ReachOf(t, q.low);
    ReachedChain(pm, next, t, q.low, h, c, header);
    assert ([r.es] + r.later)[1..] == r.later;
  }

  lemma ScanFromEntry(es: seq<Entry>, later: seq<seq<Entry>>, i: nat, q: Query)
    requires i < |es|
    ensures PendingOf([es] + later, i, q) == [es[i]] + TakeBelow(es[i + 1..] + Flatten(later), q)
  {
  }

  /** The scan moved to the head of the next leaf. */
  lemma ScanFromSibling(pm: PageMap, r: Reach, c: Capacity, q: Query)
    requires ScanAt(pm, r.pid, [r.es] + r.later, -1, c) && r.pid in pm && pm[r.pid].LeafImage?
    requires pm[r.pid].rightSib != INVALID_NUMBER
    ensures pm[r.pid].rightSib in pm && ScanAt(pm, pm[r.pid].rightSib, r.later, 0, c) && Flatten(r.later) != []
    ensures PendingOf(r.later, 0, q) == [Flatten(r.later)[0]] + TakeBelow(Flatten(r.later)[1..], q)
  {
    var ahead := [r.es] + r.later;
    assert ahead[1..] == r.later;
    assert forall i :: 0 <= i < |r.later| ==> r.later[i] == ahead[i + 1];
    ChainHead(pm, pm[r.pid].rightSib, r.later, c);
  }

  // --------------------------------------------------- scan against reference

  /** Whether the descent of startScan runs into page 0. */
  predicate Lost(t: Tree, c: Capacity, low: int) {
    t.InnerT? && LosesWay(t.keys, low, c, true)
  }

  /** When a range query over the tree t returns exactly the entries asked for. */
  predicate ScanGuard(t: Tree, c: Capacity, q: Query) {
    var r := ReachOf(t, q.low);
    !Lost(t, c, q.low) && Guard(r.es, Flatten(r.later), q, |r.es| == c.leaf)
  }

  /** What startScan leaves pending on the tree t. */
  function ScanStart(t: Tree, c: Capacity, q: Query): Start {
    var r := ReachOf(t, q.low);
    if Lost(t, c, q.low) then LostWay else StartIn(r.es, Flatten(r.later), q, |r.es| == c.leaf)
  }

  lemma StrictSuffix(a: seq<Entry>, b: seq<Entry>)
    requires StrictlySorted(a + b)
    ensures StrictlySorted(b)
  {
    forall i, j | 0 <= i < j < |b| ensures b[i].key < b[j].key {
      assert (a + b)[|a| + i] == b[i] && (a + b)[|a| + j] == b[j];
    }
  }

  /** Main result on scans: on every index with distinct keys, startScan followed by
      scanNext to the end meets the reference exactly when the guard holds. */
  lemma ScanExact(t: Tree, h: nat, c: Capacity, q: Query)
    requires Wf(t, h, c, true) && StrictlySorted(InOrder(t)) && q.Valid()
    requires forall i :: 0 <= i < |InOrder(t)| ==> InOrder(t)[i].key <= INT_MAX
    ensures Right(ScanStart(t, c, q), InRange(InOrder(t), q)) <==> ScanGuard(t, c, q)
  {
    hide InOrder, ReachOf, StartIn, Guard, InRange, Flatten, Wf, Lost;
    var r := ReachOf(t, q.low);
    ReachBrackets(t, q.low, h, c, true);
    var s := r.es + Flatten(r.later);
    assert InOrder(t) == r.before + s;
    StrictSuffix(r.before, s);
    assert forall i :: 0 <= i < |s| ==> s[i] == InOrder(t)[|r.before| + i];
    InRangeAppend(r.before, s, q);
    InRangeBelowLow(r.before, q);
    StartExact(r.es, Flatten(r.later), q, |r.es| == c.leaf);
  }
}
