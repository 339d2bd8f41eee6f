/** How a tree is laid out over pages: which page holds which node, each page used
    once, and the leaves chained left to right through their sibling numbers. */
module BTreeRep {
  import opened Storage
  import opened BTreeSpec
  import opened BTreePages

  type PageMap = map<PageId, Image>

  // --------------------------------------------------------- pages of a tree

  /** Every page of the tree, counted as often as the tree reaches it. */
  ghost function PagesOf(t: Tree): multiset<PageId>
    decreases t, 1
  {
    match t
    case LeafT(pid, _) => multiset{pid}
    case InnerT(pid, _, kids) => multiset{pid} + PagesAll(kids)
  }

  ghost function PagesAll(ts: seq<Tree>): multiset<PageId>
    decreases ts, 0
  {
    if ts == [] then multiset{} else PagesOf(ts[0]) + PagesAll(ts[1..])
  }

  ghost function GrownPages(g: Grown): multiset<PageId> {
    match g
    case Whole(t) => PagesOf(t)
    case Halves(l, _, r) => PagesOf(l) + PagesOf(r)
  }

  /** The pages numbered from a up to b. */
  ghost function Fresh(a: PageId, b: PageId): (s: set<PageId>)
    ensures forall p :: p in s <==> a <= p < b
  {
    if a >= b then {} else Fresh(a, b - 1) + {b - 1}
  }

  ghost function NewPages(a: PageId, b: PageId): multiset<PageId> {
    multiset(Fresh(a, b))
  }

  lemma NewPagesStep(a: PageId, b: PageId)
    ensures NewPages(a, a) == multiset{}
    ensures a <= b ==> NewPages(a, b + 1) == NewPages(a, b) + multiset{b}
  {
  }

  lemma {:induction false} PagesAppend(a: seq<Tree>, b: seq<Tree>)
    ensures PagesAll(a + b) == PagesAll(a) + PagesAll(b)
  {
    if a == [] {
      assert a + b == b;
    } else {
      assert (a + b)[1..] == a[1..] + b;
      PagesAppend(a[1..], b);
    }
  }

  lemma PagesAround(ts: seq<Tree>, pos: nat)
    requires pos < |ts|
    ensures PagesAll(ts) == PagesAll(ts[..pos]) + PagesOf(ts[pos]) + PagesAll(ts[pos + 1..])
  {
    assert ts == ts[..pos] + ts[pos..];
    PagesAppend(ts[..pos], ts[pos..]);
  }

  lemma {:induction false} PagesSplice(ts: seq<Tree>, pos: nat, mid: seq<Tree>)
    requires pos < |ts|
    ensures PagesAll(ts[..pos] + mid + ts[pos + 1..]) == PagesAll(ts[..pos]) + PagesAll(mid) + PagesAll(ts[pos + 1..])
  {
    PagesAppend(ts[..pos] + mid, ts[pos + 1..]);
    PagesAppend(ts[..pos], mid);
  }

  /** The child at pos shares no page with its siblings. */
  lemma SiblingPagesDisjoint(ts: seq<Tree>, pos: nat, pages: set<PageId>)
    requires pos < |ts| && PagesAll(ts) <= multiset(pages)
    ensures forall p :: p in PagesAll(ts[..pos]) || p in PagesAll(ts[pos + 1..]) ==> p !in PagesOf(ts[pos])
  {
    PagesAround(ts, pos);
    var l, m, r := PagesAll(ts[..pos]), PagesOf(ts[pos]), PagesAll(ts[pos + 1..]);
    forall p | p in l || p in r ensures p !in m {
      assert PagesAll(ts)[p] == l[p] + m[p] + r[p];
      assert multiset(pages)[p] <= 1;
    }
  }

  lemma ChildPagesWithin(ts: seq<Tree>, i: nat, pages: multiset<PageId>)
    requires i < |ts| && PagesAll(ts) <= pages
    ensures PagesOf(ts[i]) <= pages
  {
    PagesAround(ts, i);
  }

  // ------------------------------------------------------------------ layout

  /** The leaf a left-to-right walk of the tree starts on. */
  function FirstLeaf(t: Tree): PageId
    decreases t
  {
    match t
    case LeafT(pid, _) => pid
    case InnerT(_, _, kids) => if kids == [] then INVALID_NUMBER else FirstLeaf(kids[0])
  }

  function Pids(ts: seq<Tree>): (ps: seq<PageId>)
    ensures |ps| == |ts|
    ensures forall i :: 0 <= i < |ts| ==> ps[i] == ts[i].pid
  {
    seq(|ts|, i requires 0 <= i < |ts| => ts[i].pid)
  }

  /** What follows the leaves of ts[i] in the chain. */
  function AfterOf(ts: seq<Tree>, i: nat, after: PageId): PageId {
    if i + 1 < |ts| then FirstLeaf(ts[i + 1]) else after
  }

  /** 1 exactly on the parents of leaves. */
  function LevelOf(h: int): int {
    if h == 2 then 1 else 0
  }

  /** The pages pm lay out the tree t of height h, whose last leaf links to `after`. */
  ghost predicate Rep(pm: PageMap, t: Tree, after: PageId, h: int, c: Capacity, root: bool)
    decreases t, 1
  {
    match t
    case LeafT(pid, es) =>
      pid in pm && LeafHolds(pm[pid], es, after, c)
    case InnerT(pid, ks, ts) =>
      && pid in pm
      && InnerHolds(pm[pid], LevelOf(h), ks, Pids(ts), c, root)
      && RepAll(pm, ts, after, h - 1, c)
  }

  ghost predicate RepAll(pm: PageMap, ts: seq<Tree>, after: PageId, h: int, c: Capacity)
    decreases ts, 0
  {
    forall i :: 0 <= i < |ts| ==> Rep(pm, ts[i], AfterOf(ts, i, after), h, c, false)
  }

  ghost predicate GrownRep(pm: PageMap, g: Grown, after: PageId, h: int, c: Capacity, root: bool) {
    match g
    case Whole(t) => Rep(pm, t, after, h, c, root)
    case Halves(l, _, r) => Rep(pm, l, FirstLeaf(r), h, c, false) && Rep(pm, r, after, h, c, false)
  }

  function GrownHead(g: Grown): Tree {
    if g.Whole? then g.tree else g.left
  }

  function Parts(g: Grown): seq<Tree> {
    if g.Whole? then [g.tree] else [g.left, g.right]
  }

  ghost predicate Agree(pm: PageMap, pm2: PageMap, pages: multiset<PageId>) {
    forall p :: p in pages && p in pm ==> p in pm2 && pm2[p] == pm[p]
  }

  lemma {:induction false} RepFrame(pm: PageMap, pm2: PageMap, t: Tree, after: PageId, h: int, c: Capacity, root: bool)
    requires Rep(pm, t, after, h, c, root) && Agree(pm, pm2, PagesOf(t))
    ensures Rep(pm2, t, after, h, c, root)
    decreases t, 1
  {
    match t
    case LeafT(pid, _) => assert pid in PagesOf(t);
    case InnerT(pid, _, kids) =>
      assert pid in PagesOf(t);
      RepAllFrame(pm, pm2, kids, after, h - 1, c);
  }

  lemma {:induction false} RepAllFrame(pm: PageMap, pm2: PageMap, ts: seq<Tree>, after: PageId, h: int, c: Capacity)
    requires RepAll(pm, ts, after, h, c) && Agree(pm, pm2, PagesAll(ts))
    ensures RepAll(pm2, ts, after, h, c)
    decreases ts, 0
  {
    forall i | 0 <= i < |ts| ensures Rep(pm2, ts[i], AfterOf(ts, i, after), h, c, false) {
      ChildPagesWithin(ts, i, PagesAll(ts));
      RepFrame(pm, pm2, ts[i], AfterOf(ts, i, after), h, c, false);
    }
  }

  function FirstOf(ts: seq<Tree>, after: PageId): PageId {
    if ts == [] then after else FirstLeaf(ts[0])
  }

  lemma RepAllAppend(pm: PageMap, a: seq<Tree>, b: seq<Tree>, after: PageId, h: int, c: Capacity)
    ensures RepAll(pm, a + b, after, h, c) <==> RepAll(pm, a, FirstOf(b, after), h, c) && RepAll(pm, b, after, h, c)
  {
    var ts := a + b;
    assert forall i :: 0 <= i < |a| ==> ts[i] == a[i] && AfterOf(ts, i, after) == AfterOf(a, i, FirstOf(b, after));
    assert forall i :: 0 <= i < |b| ==> ts[|a| + i] == b[i] && AfterOf(ts, |a| + i, after) == AfterOf(b, i, after);
    if RepAll(pm, ts, after, h, c) {
      forall i | 0 <= i < |b| ensures Rep(pm, b[i], AfterOf(b, i, after), h, c, false) {
        assert Rep(pm, ts[|a| + i], AfterOf(ts, |a| + i, after), h, c, false);
      }
    }
  }

  /** A chain of children cut around position pos. */
  lemma RepAllAround(pm: PageMap, ts: seq<Tree>, pos: nat, after: PageId, h: int, c: Capacity)
    requires pos < |ts| && RepAll(pm, ts, after, h, c)
    ensures RepAll(pm, ts[..pos], FirstLeaf(ts[pos]), h, c)
    ensures Rep(pm, ts[pos], AfterOf(ts, pos, after), h, c, false)
    ensures RepAll(pm, ts[pos + 1..], after, h, c)
  {
  }

  lemma PartsRep(pm: PageMap, g: Grown, after: PageId, h: int, c: Capacity)
    requires GrownRep(pm, g, after, h, c, false)
    ensures RepAll(pm, Parts(g), after, h, c)
  {}

  /** The children after the one at pos was replaced by what grew out of it. */
  lemma SpliceRep(pm: PageMap, pm2: PageMap, ts: seq<Tree>, pos: nat, g: Grown, after: PageId, h: int, c: Capacity)
    requires pos < |ts| && RepAll(pm, ts, after, h, c) && PagesAll(ts) <= multiset(pm.Keys)
    requires forall p :: p in pm && p !in PagesOf(ts[pos]) ==> p in pm2 && pm2[p] == pm[p]
    requires GrownRep(pm2, g, AfterOf(ts, pos, after), h, c, false) && FirstLeaf(GrownHead(g)) == FirstLeaf(ts[pos])
    ensures RepAll(pm2, ts[..pos] + Parts(g) + ts[pos + 1..], after, h, c)
  {
    hide Rep, GrownRep, RepAll, PagesAll, PagesOf, FirstLeaf;
    RepAllAround(pm, ts, pos, after, h, c);
    SiblingPagesDisjoint(ts, pos, pm.Keys);
    RepAllFrame(pm, pm2, ts[..pos], FirstLeaf(ts[pos]), h, c);
    RepAllFrame(pm, pm2, ts[pos + 1..], after, h, c);
    PartsRep(pm2, g, AfterOf(ts, pos, after), h, c);
    RepAllAppend(pm2, Parts(g), ts[pos + 1..], after, h, c);
    RepAllAppend(pm2, ts[..pos], Parts(g) + ts[pos + 1..], after, h, c);
    assert ts[..pos] + (Parts(g) + ts[pos + 1..]) == ts[..pos] + Parts(g) + ts[pos + 1..];
  }

  /** The layout of an inner node once its page holds the spliced lists. */
  lemma InnerWholeRep(pm: PageMap, pid: PageId, ks: seq<int>, ts: seq<Tree>, next: PageId, after: PageId, h: int,
                      c: Capacity, root: bool)
    requires c.Valid() && |ks| <= c.node && |ts| == |ks| + 1 && RepAll(pm, ts, after, h - 1, c)
    requires pid in pm && InnerHolds(pm[pid], LevelOf(h), ks, Pids(ts), c, root)
    ensures GrownRep(pm, InnerGrown(pid, ks, ts, next, c), after, h, c, root)
  {}

  lemma PidsSlice(ts: seq<Tree>, m: nat)
    requires m <= |ts|
    ensures Pids(ts[..m]) == Pids(ts)[..m] && Pids(ts[m..]) == Pids(ts)[m..]
  {}

  /** The same after a split: the two pages hold the two parts. */
  lemma InnerSplitRep(pm: PageMap, pid: PageId, ks: seq<int>, ts: seq<Tree>, next: PageId, after: PageId, h: int,
                      c: Capacity, root: bool)
    requires c.Valid() && |ks| == c.node + 1 && |ts| == |ks| + 1 && RepAll(pm, ts, after, h - 1, c)
    requires pid in pm && next in pm
    requires InnerHolds(pm[pid], LevelOf(h), ks[..(c.node + 1) / 2], Pids(ts)[..(c.node + 1) / 2 + 1], c, false)
    requires InnerHolds(pm[next], LevelOf(h), ks[(c.node + 1) / 2 + 1..], Pids(ts)[(c.node + 1) / 2 + 1..], c, false)
    ensures GrownRep(pm, InnerGrown(pid, ks, ts, next, c), after, h, c, root)
  {
    hide Pids, LevelOf, RepAll;
    var mid := (c.node + 1) / 2;
    var ls, rs := ts[..mid + 1], ts[mid + 1..];
    PidsSlice(ts, mid + 1);
    assert RepAll(pm, ls, FirstLeaf(rs[0]), h - 1, c) && RepAll(pm, rs, after, h - 1, c) by {
      assert ts == ls + rs;
      RepAllAppend(pm, ls, rs, after, h - 1, c);
    }
    assert Rep(pm, InnerT(pid, ks[..mid], ls), FirstLeaf(rs[0]), h, c, false);
    assert Rep(pm, InnerT(next, ks[mid + 1..], rs), after, h, c, false);
  }

  // ------------------------------------------- what insertion does to pages

  lemma PartsPages(g: Grown)
    ensures PagesAll(Parts(g)) == GrownPages(g)
  {
    if g.Halves? {
      PagesAppend([g.left], [g.right]);
      assert Parts(g) == [g.left] + [g.right];
    }
  }

  lemma InnerGrownPages(pid: PageId, ks: seq<int>, ts: seq<Tree>, next: PageId, c: Capacity)
    requires c.Valid() && |ks| <= c.node + 1 && |ts| == |ks| + 1
    ensures var g := InnerGrown(pid, ks, ts, next, c);
      GrownPages(g) == multiset{pid} + PagesAll(ts) + (if g.Whole? then multiset{} else multiset{next})
  {
    hide PagesAll;
    if |ks| > c.node {
      var mid := (c.node + 1) / 2;
      assert ts == ts[..mid + 1] + ts[mid + 1..];
      PagesAppend(ts[..mid + 1], ts[mid + 1..]);
    }
  }

  /** g holds the pages of t and the pages allocated from next up to next1. */
  ghost predicate PagesGrow(t: Tree, g: Grown, next: PageId, next1: PageId) {
    next <= next1 && GrownPages(g) == PagesOf(t) + NewPages(next, next1)
  }

  lemma SplicePages(kids: seq<Tree>, pos: nat, below: Grown, added: multiset<PageId>)
    requires pos < |kids| && GrownPages(below) == PagesOf(kids[pos]) + added
    ensures PagesAll(kids[..pos] + Parts(below) + kids[pos + 1..]) == PagesAll(kids) + added
  {
    PagesSplice(kids, pos, Parts(below));
    PartsPages(below);
    PagesAround(kids, pos);
  }

  lemma GrownPagesGrow(t: Tree, ks: seq<int>, ts: seq<Tree>, next: PageId, next1: PageId, c: Capacity)
    requires c.Valid() && |ks| <= c.node + 1 && |ts| == |ks| + 1
    requires t.InnerT? && next <= next1 && PagesAll(ts) == PagesAll(t.kids) + NewPages(next, next1)
    ensures var g := InnerGrown(t.pid, ks, ts, next1, c);
      PagesGrow(t, g, next, if g.Whole? then next1 else next1 + 1)
  {
    hide PagesAll;
    NewPagesStep(next, next1);
    hide NewPages;
    InnerGrownPages(t.pid, ks, ts, next1, c);
  }

  lemma AbsorbPages(pid: PageId, keys: seq<int>, kids: seq<Tree>, pos: nat, below: Grown, next: PageId, next1: PageId,
                    c: Capacity)
    requires c.Valid() && |keys| <= c.node && |kids| == |keys| + 1 && pos < |kids|
    requires PagesGrow(kids[pos], below, next, next1)
    ensures var g := Absorb(pid, keys, kids, pos, below, next1, c);
      PagesGrow(InnerT(pid, keys, kids), g, next, if g.Whole? then next1 else next1 + 1)
  {
    hide PagesAll, InnerGrown;
    SplicePages(kids, pos, below, NewPages(next, next1));
    var t := InnerT(pid, keys, kids);
    if below.Whole? {
      assert kids[pos := below.tree] == kids[..pos] + Parts(below) + kids[pos + 1..];
    } else {
      hide PagesGrow;
      GrownPagesGrow(t, keys[..pos] + [below.key] + keys[pos..],
                     kids[..pos] + [below.left, below.right] + kids[pos + 1..], next, next1, c);
    }
  }

  lemma LeafPages(pid: PageId, es: seq<Entry>, es1: seq<Entry>, next: PageId, c: Capacity)
    requires c.Valid() && |es1| <= c.leaf + 1
    ensures var g := LeafGrown(pid, es1, next, c);
      PagesGrow(LeafT(pid, es), g, next, if g.Whole? then next else next + 1)
  {
  }

  /** Insertion keeps every page of the subtree and adds exactly the freshly
      allocated ones. */
  lemma {:induction false} InsertPages(t: Tree, e: Entry, next: PageId, h: nat, c: Capacity, root: bool)
    requires c.Valid() && Wf(t, h, c, root)
    ensures PagesGrow(t, Insert(t, e, next, h, c, root).0, next, Insert(t, e, next, h, c, root).1)
    decreases t
  {
    hide PagesGrow, Absorb;
    match t
    case LeafT(pid, entries) =>
      LeafPages(pid, entries, InsertSorted(entries, e), next, c);
    case InnerT(pid, keys, kids) =>
      var pos := UpperIndex(keys, e.key);
      assert AllWf(kids, h - 1, c);
      InsertPages(kids[pos], e, next, h - 1, c, false);
      var (below, next1) := Insert(kids[pos], e, next, h - 1, c, false);
      AbsorbPages(pid, keys, kids, pos, below, next, next1, c);
  }

  lemma AbsorbHead(pid: PageId, keys: seq<int>, kids: seq<Tree>, pos: nat, below: Grown, next: PageId, c: Capacity)
    requires c.Valid() && |keys| <= c.node && |kids| == |keys| + 1 && pos < |kids|
    requires FirstLeaf(GrownHead(below)) == FirstLeaf(kids[pos])
    ensures GrownHead(Absorb(pid, keys, kids, pos, below, next, c)).pid == pid
    ensures FirstLeaf(GrownHead(Absorb(pid, keys, kids, pos, below, next, c))) == FirstLeaf(kids[0])
  {}

  /** A subtree keeps its own page and the page its leaf chain starts on. */
  lemma {:induction false} InsertHead(t: Tree, e: Entry, next: PageId, h: nat, c: Capacity, root: bool)
    requires c.Valid() && Wf(t, h, c, root)
    ensures GrownHead(Insert(t, e, next, h, c, root).0).pid == t.pid
    ensures FirstLeaf(GrownHead(Insert(t, e, next, h, c, root).0)) == FirstLeaf(t)
    decreases t
  {
    hide Absorb;
    match t
    case LeafT(_, _) =>
    case InnerT(pid, keys, kids) =>
      var pos := UpperIndex(keys, e.key);
      assert AllWf(kids, h - 1, c);
      InsertHead(kids[pos], e, next, h - 1, c, false);
      var (below, next1) := Insert(kids[pos], e, next, h - 1, c, false);
      AbsorbHead(pid, keys, kids, pos, below, next1, c);
  }

  // ------------------------------------------------ an inner node's own step

  /** Only the given pages, or pages that did not exist before, may differ. */
  ghost predicate Kept(before: PageMap, now: PageMap, pages: multiset<PageId>) {
    forall p :: p in before ==> p in now && (p !in pages ==> now[p] == before[p])
  }

  /** Pages came only from the end of the file. */
  ghost predicate Grew(before: PageMap, next: PageId, now: PageMap, next1: PageId) {
    next <= next1 && now.Keys == before.Keys + Fresh(next, next1)
  }

  lemma GrewPages(before: PageMap, next: PageId, now: PageMap, next1: PageId)
    requires Grew(before, next, now, next1) && forall p :: p in before ==> p < next
    ensures multiset(now.Keys) == multiset(before.Keys) + NewPages(next, next1)
  {
  }

  /** Nothing split below: the node's page still lists its children. */
  lemma WholeBelow(pm: PageMap, pm1: PageMap, t: Tree, pos: nat, kid: Tree, after: PageId, h: int, c: Capacity,
                   root: bool)
    requires t.InnerT? && Rep(pm, t, after, h, c, root) && pos < |t.kids| && PagesOf(t) <= multiset(pm.Keys)
    requires Kept(pm, pm1, PagesOf(t.kids[pos]))
    requires Rep(pm1, kid, AfterOf(t.kids, pos, after), h - 1, c, false)
    requires FirstLeaf(kid) == FirstLeaf(t.kids[pos]) && kid.pid == t.kids[pos].pid
    ensures Rep(pm1, InnerT(t.pid, t.keys, t.kids[pos := kid]), after, h, c, root)
  {
    hide InnerHolds, RepAll, PagesAll;
    var ts := t.kids[..pos] + Parts(Whole(kid)) + t.kids[pos + 1..];
    assert ts == t.kids[pos := kid];
    OwnPage(t, pos, pm.Keys);
    SpliceRep(pm, pm1, t.kids, pos, Whole(kid), after, h - 1, c);
    assert Pids(ts) == Pids(t.kids);
  }

  /** A node's page is none of its children's, and the children keep to the page set. */
  lemma OwnPage(t: Tree, pos: nat, pages: set<PageId>)
    requires t.InnerT? && pos < |t.kids| && PagesOf(t) <= multiset(pages)
    ensures PagesAll(t.kids) <= multiset(pages) && PagesOf(t.kids[pos]) <= multiset(pages)
    ensures t.pid in pages && t.pid !in PagesAll(t.kids) && t.pid !in PagesOf(t.kids[pos])
  {
    hide PagesAll;
    var rest := PagesAll(t.kids);
    assert PagesOf(t) == multiset{t.pid} + rest;
    assert multiset(pages)[t.pid] <= 1 && PagesOf(t)[t.pid] == 1 + rest[t.pid];
    ChildPagesWithin(t.kids, pos, rest);
  }

  /** A split below: once the node's page has been rewritten (and possibly a page for
      its own upper half added), the spliced children are laid out. */
  lemma HalvesBelow(pm: PageMap, pm1: PageMap, pm2: PageMap, t: Tree, pos: nat, below: Grown,
                    next: PageId, next1: PageId, after: PageId, h: int, c: Capacity, root: bool)
    requires t.InnerT? && Rep(pm, t, after, h, c, root) && pos < |t.kids| && PagesOf(t) <= multiset(pm.Keys)
    requires forall p :: p in pm ==> p < next
    requires Kept(pm, pm1, PagesOf(t.kids[pos])) && Kept(pm1, pm2, multiset{t.pid})
    requires GrownRep(pm1, below, AfterOf(t.kids, pos, after), h - 1, c, false)
    requires FirstLeaf(GrownHead(below)) == FirstLeaf(t.kids[pos]) && PagesGrow(t.kids[pos], below, next, next1)
    ensures RepAll(pm2, t.kids[..pos] + Parts(below) + t.kids[pos + 1..], after, h - 1, c)
  {
    hide RepAll, PagesAll, GrownRep;
    var ts := t.kids[..pos] + Parts(below) + t.kids[pos + 1..];
    OwnPage(t, pos, pm.Keys);
    assert RepAll(pm, t.kids, after, h - 1, c);
    SpliceRep(pm, pm1, t.kids, pos, below, after, h - 1, c);
    SplicePages(t.kids, pos, below, NewPages(next, next1));
    assert t.pid !in NewPages(next, next1);
    RepAllFrame(pm1, pm2, ts, after, h - 1, c);
  }

  // ------------------------------------------- one insertion, page by page

  /** A separator and the page to its right, on its way up; page 0 means no split. */
  datatype PageKeyPair = PageKeyPair(pageNo: PageId, key: int)

  ghost predicate Announces(newChild: PageKeyPair, g: Grown) {
    match g
    case Whole(_) => newChild.pageNo == INVALID_NUMBER
    case Halves(_, k, r) => newChild == PageKeyPair(r.pid, k) && r.pid != INVALID_NUMBER
  }

  /** The pages lay out t, each of its pages once, and all below `next`. */
  ghost predicate Laid(pm: PageMap, next: PageId, t: Tree, after: PageId, h: nat, c: Capacity, root: bool) {
    && c.Valid() && Wf(t, h, c, root) && Rep(pm, t, after, h, c, root) && PagesOf(t) <= multiset(pm.Keys)
    && INVALID_NUMBER < next && forall p :: p in pm ==> p < next
  }

  /** From pm the pages became pm1: they lay out t with e inserted, nothing outside t
      changed, and newChild tells the caller about a split. */
  ghost predicate Inserted(pm: PageMap, next: PageId, pm1: PageMap, next1: PageId, newChild: PageKeyPair,
                           t: Tree, e: Entry, after: PageId, h: nat, c: Capacity, root: bool)
    requires c.Valid() && Wf(t, h, c, root)
  {
    var (g, n) := Insert(t, e, next, h, c, root);
    Announces(newChild, g) && GrownRep(pm1, g, after, h, c, root) && next1 == n && Kept(pm, pm1, PagesOf(t))
    && Grew(pm, next, pm1, next1)
  }

  lemma ChildLaid(pm: PageMap, next: PageId, t: Tree, pos: nat, after: PageId, h: nat, c: Capacity, root: bool)
    requires Laid(pm, next, t, after, h, c, root) && t.InnerT? && pos <= |t.keys|
    ensures h >= 2 && |t.kids| == |t.keys| + 1 && 1 <= |t.keys| <= c.node
    ensures Laid(pm, next, t.kids[pos], AfterOf(t.kids, pos, after), h - 1, c, false)
    ensures t.pid in pm && InnerHolds(pm[t.pid], LevelOf(h), t.keys, Pids(t.kids), c, root)
    ensures t.kids[pos].InnerT? <==> h > 2
  {
    assert AllWf(t.kids, h - 1, c) && RepAll(pm, t.kids, after, h - 1, c);
    OwnPage(t, pos, pm.Keys);
  }

  /** The child at pos took e in. */
  ghost predicate ChildInserted(pm: PageMap, next: PageId, pm1: PageMap, next1: PageId, up: PageKeyPair,
                                t: Tree, pos: nat, e: Entry, after: PageId, h: nat, c: Capacity, root: bool)
  {
    && Laid(pm, next, t, after, h, c, root) && t.InnerT? && h >= 2
    && pos < |t.kids| && pos == UpperIndex(t.keys, e.key)
    && Laid(pm, next, t.kids[pos], AfterOf(t.kids, pos, after), h - 1, c, false)
    && Inserted(pm, next, pm1, next1, up, t.kids[pos], e, AfterOf(t.kids, pos, after), h - 1, c, false)
  }

  lemma ChildInsertedIntro(pm: PageMap, next: PageId, pm1: PageMap, next1: PageId, up: PageKeyPair,
                           t: Tree, pos: nat, e: Entry, after: PageId, h: nat, c: Capacity, root: bool)
    requires Laid(pm, next, t, after, h, c, root) && t.InnerT? && h >= 2 && pos < |t.kids|
    requires pos == UpperIndex(t.keys, e.key)
    requires Laid(pm, next, t.kids[pos], AfterOf(t.kids, pos, after), h - 1, c, false)
    requires Inserted(pm, next, pm1, next1, up, t.kids[pos], e, AfterOf(t.kids, pos, after), h - 1, c, false)
    ensures ChildInserted(pm, next, pm1, next1, up, t, pos, e, after, h, c, root)
    ensures forall p :: p in pm ==> p in pm1
    ensures t.pid in pm && t.pid in pm1
  {
  }

  lemma FinishWhole(pm: PageMap, next: PageId, pm1: PageMap, next1: PageId, up: PageKeyPair,
                    t: Tree, pos: nat, e: Entry, after: PageId, h: nat, c: Capacity, root: bool)
    requires ChildInserted(pm, next, pm1, next1, up, t, pos, e, after, h, c, root) && up.pageNo == INVALID_NUMBER
    ensures Inserted(pm, next, pm1, next1, up, t, e, after, h, c, root)
  {
    hide Wf, Rep, PagesOf;
    var (below, _) := Insert(t.kids[pos], e, next, h - 1, c, false);
    InsertHead(t.kids[pos], e, next, h - 1, c, false);
    WholeBelow(pm, pm1, t, pos, below.tree, after, h, c, root);
    KeptWider(pm, pm1, t, pos);
  }

  /** The node's page after the separator and child that came up were stored. */
  ghost predicate Stored(pm: PageMap, next: PageId, pm1: PageMap, next1: PageId, newChild: PageKeyPair,
                         pid: PageId, ks: seq<int>, ps: seq<PageId>, level: int, c: Capacity)
    requires |ks| <= c.node + 1 && |ps| == |ks| + 1
  {
    && Kept(pm, pm1, multiset{pid}) && pid in pm1 && Grew(pm, next, pm1, next1)
    && (|ks| <= c.node ==>
      newChild.pageNo == INVALID_NUMBER && next1 == next && InnerHolds(pm1[pid], level, ks, ps, c, false))
    && (|ks| > c.node ==> var mid := (c.node + 1) / 2;
      && newChild == PageKeyPair(next, ks[mid]) && next1 == next + 1 && next in pm1
      && InnerHolds(pm1[pid], level, ks[..mid], ps[..mid + 1], c, false)
      && InnerHolds(pm1[next], level, ks[mid + 1..], ps[mid + 1..], c, false))
  }

  /** What storing and splitting leave behind, before the node's own page is put back. */
  ghost predicate Handed(pm: PageMap, next: PageId, pm1: PageMap, next1: PageId, newChild: PageKeyPair,
                         img: Image, ks: seq<int>, ps: seq<PageId>, level: int, c: Capacity)
    requires |ks| <= c.node + 1 && |ps| == |ks| + 1
  {
    && (|ks| <= c.node ==>
      newChild.pageNo == INVALID_NUMBER && pm1 == pm && next1 == next && InnerHolds(img, level, ks, ps, c, false))
    && (|ks| > c.node ==> var mid := (c.node + 1) / 2;
      && newChild == PageKeyPair(next, ks[mid]) && next1 == next + 1 && next in pm1 && pm1 == pm[next := pm1[next]]
      && InnerHolds(img, level, ks[..mid], ps[..mid + 1], c, false)
      && InnerHolds(pm1[next], level, ks[mid + 1..], ps[mid + 1..], c, false))
  }

  lemma PutBack(pm: PageMap, next: PageId, pm1: PageMap, next1: PageId, newChild: PageKeyPair,
                pid: PageId, img: Image, ks: seq<int>, ps: seq<PageId>, level: int, c: Capacity)
    requires |ks| <= c.node + 1 && |ps| == |ks| + 1 && pid in pm && forall p :: p in pm ==> p < next
    requires Handed(pm, next, pm1, next1, newChild, img, ks, ps, level, c)
    ensures Stored(pm, next, pm1[pid := img], next1, newChild, pid, ks, ps, level, c)
  {
  }

  lemma FinishHalves(pm: PageMap, next: PageId, pm1: PageMap, next1: PageId, up: PageKeyPair,
                     pm2: PageMap, next2: PageId, newChild: PageKeyPair,
                     t: Tree, pos: nat, e: Entry, after: PageId, h: nat, c: Capacity, root: bool)
    requires ChildInserted(pm, next, pm1, next1, up, t, pos, e, after, h, c, root) && up.pageNo != INVALID_NUMBER
    requires 1 <= |t.keys| <= c.node && |t.kids| == |t.keys| + 1
    requires Stored(pm1, next1, pm2, next2, newChild, t.pid, t.keys[..pos] + [up.key] + t.keys[pos..],
                    Pids(t.kids)[..pos + 1] + [up.pageNo] + Pids(t.kids)[pos + 1..], LevelOf(h), c)
    ensures Inserted(pm, next, pm2, next2, newChild, t, e, after, h, c, root)
  {
    hide Wf, Rep, RepAll, PagesOf, PagesAll, PagesGrow, Pids, Stored, Kept, Grew, GrownRep, FirstLeaf, Absorb;
    hide InnerGrown;
    var (below, n) := Insert(t.kids[pos], e, next, h - 1, c, false);
    InsertHead(t.kids[pos], e, next, h - 1, c, false);
    InsertPages(t.kids[pos], e, next, h - 1, c, false);
    assert Kept(pm1, pm2, multiset{t.pid}) && Grew(pm1, next1, pm2, next2) by {
      StoredKept(pm1, next1, pm2, next2, newChild, t.pid, t.keys[..pos] + [up.key] + t.keys[pos..],
                 Pids(t.kids)[..pos + 1] + [up.pageNo] + Pids(t.kids)[pos + 1..], LevelOf(h), c);
    }
    HalvesBelow(pm, pm1, pm2, t, pos, below, next, next1, after, h, c, root);
    SplicePids(t.kids, pos, below);
    var ks, ts := t.keys[..pos] + [up.key] + t.keys[pos..], t.kids[..pos] + Parts(below) + t.kids[pos + 1..];
    StoredRep(pm1, next1, pm2, next2, newChild, t.pid, ks, ts, after, h, c, root);
    AbsorbHalves(t.pid, t.keys, t.kids, pos, below, next1, c);
    KeptWider(pm, pm1, t, pos);
    KeptTwice(pm, pm1, pm2, t);
    GrewTwice(pm, next, pm1, next1, pm2, next2);
  }

  lemma StoredKept(pm: PageMap, next: PageId, pm1: PageMap, next1: PageId, newChild: PageKeyPair,
                   pid: PageId, ks: seq<int>, ps: seq<PageId>, level: int, c: Capacity)
    requires |ks| <= c.node + 1 && |ps| == |ks| + 1 && Stored(pm, next, pm1, next1, newChild, pid, ks, ps, level, c)
    ensures Kept(pm, pm1, multiset{pid}) && Grew(pm, next, pm1, next1)
  {}

  lemma AbsorbHalves(pid: PageId, keys: seq<int>, kids: seq<Tree>, pos: nat, below: Grown, next: PageId, c: Capacity)
    requires c.Valid() && |keys| <= c.node && |kids| == |keys| + 1 && pos < |kids| && below.Halves?
    ensures Absorb(pid, keys, kids, pos, below, next, c)
         == InnerGrown(pid, keys[..pos] + [below.key] + keys[pos..],
                       kids[..pos] + Parts(below) + kids[pos + 1..], next, c)
  {
  }

  lemma SplicePids(kids: seq<Tree>, pos: nat, below: Grown)
    requires pos < |kids| && below.Halves? && below.left.pid == kids[pos].pid
    ensures Pids(kids[..pos] + Parts(below) + kids[pos + 1..])
         == Pids(kids)[..pos + 1] + [below.right.pid] + Pids(kids)[pos + 1..]
  {}

  lemma GrewTwice(pm: PageMap, next: PageId, pm1: PageMap, next1: PageId, pm2: PageMap, next2: PageId)
    requires Grew(pm, next, pm1, next1) && Grew(pm1, next1, pm2, next2)
    ensures Grew(pm, next, pm2, next2)
  {}

  lemma KeptTwice(pm: PageMap, pm1: PageMap, pm2: PageMap, t: Tree)
    requires Kept(pm, pm1, PagesOf(t)) && Kept(pm1, pm2, multiset{t.pid})
    ensures Kept(pm, pm2, PagesOf(t))
  {}

  lemma StoredRep(pm1: PageMap, next1: PageId, pm2: PageMap, next2: PageId, newChild: PageKeyPair,
                  pid: PageId, ks: seq<int>, ts: seq<Tree>, after: PageId, h: nat, c: Capacity, root: bool)
    requires c.Valid() && 2 <= |ks| <= c.node + 1 && |ts| == |ks| + 1 && next1 != INVALID_NUMBER
    requires Stored(pm1, next1, pm2, next2, newChild, pid, ks, Pids(ts), LevelOf(h), c)
    requires RepAll(pm2, ts, after, h - 1, c)
    ensures var g := InnerGrown(pid, ks, ts, next1, c);
      && GrownRep(pm2, g, after, h, c, root) && Announces(newChild, g)
      && next2 == (if g.Whole? then next1 else next1 + 1)
  {
    hide RepAll, Pids, InnerHolds, Kept;
    if |ks| <= c.node {
      assert InnerHolds(pm2[pid], LevelOf(h), ks, Pids(ts), c, root) by {
        RootHolds(pm2[pid], LevelOf(h), ks, Pids(ts), c, root);
      }
      InnerWholeRep(pm2, pid, ks, ts, next1, after, h, c, root);
    } else {
      InnerSplitRep(pm2, pid, ks, ts, next1, after, h, c, root);
    }
  }

  lemma RootHolds(img: Image, level: int, ks: seq<int>, ps: seq<PageId>, c: Capacity, root: bool)
    requires InnerHolds(img, level, ks, ps, c, false) && |ks| >= 2
    ensures InnerHolds(img, level, ks, ps, c, root)
  {}

  lemma KeptWider(pm: PageMap, pm1: PageMap, t: Tree, pos: nat)
    requires t.InnerT? && pos < |t.kids| && Kept(pm, pm1, PagesOf(t.kids[pos]))
    ensures Kept(pm, pm1, PagesOf(t))
  {
    ChildPagesWithin(t.kids, pos, PagesAll(t.kids));
  }

  // ------------------------------------------------------------ a leaf's step

  /** What storing e and splitting leave behind, before the leaf's page is put back. */
  ghost predicate LeafHanded(pm: PageMap, next: PageId, pm1: PageMap, next1: PageId, newChild: PageKeyPair,
                             img: Image, es: seq<Entry>, after: PageId, c: Capacity)
    requires c.Valid() && |es| <= c.leaf + 1
  {
    && (|es| <= c.leaf ==>
      newChild.pageNo == INVALID_NUMBER && pm1 == pm && next1 == next && LeafHolds(img, es, after, c))
    && (|es| > c.leaf ==> var cut := c.leaf / 2 + 1;
      && newChild == PageKeyPair(next, es[cut].key) && next1 == next + 1 && next in pm1 && pm1 == pm[next := pm1[next]]
      && LeafHolds(img, es[..cut], next, c) && LeafHolds(pm1[next], es[cut..], after, c))
  }

  lemma LeafDone(pm: PageMap, next: PageId, pm1: PageMap, next1: PageId, newChild: PageKeyPair,
                 pid: PageId, img: Image, es: seq<Entry>, e: Entry, after: PageId, c: Capacity, root: bool)
    requires Laid(pm, next, LeafT(pid, es), after, 1, c, root)
    requires LeafHanded(pm, next, pm1, next1, newChild, img, InsertSorted(es, e), after, c)
    ensures Inserted(pm, next, pm1[pid := img], next1, newChild, LeafT(pid, es), e, after, 1, c, root)
  {
    hide LeafHolds, InsertSorted;
  }

  // -------------------------------------------------------------- the root

  /** What a whole index file holds: exactly the pages of one sorted tree, and the meta
      page `header`, which names the root and the height. */
  ghost predicate Holds(pm: PageMap, next: PageId, t: Tree, h: nat, c: Capacity, header: PageId) {
    && Laid(pm, next, t, INVALID_NUMBER, h, c, true)
    && PagesOf(t) + multiset{header} == multiset(pm.Keys)
    && Sorted(InOrder(t))
    && Describes(pm, header, t, h)
  }

  ghost predicate Describes(pm: PageMap, header: PageId, t: Tree, h: nat) {
    header in pm && pm[header] == MetaImage(t.pid, h)
  }

  lemma HoldsRoot(pm: PageMap, next: PageId, t: Tree, h: nat, c: Capacity, header: PageId)
    requires Holds(pm, next, t, h, c, header)
    ensures Laid(pm, next, t, INVALID_NUMBER, h, c, true) && t.pid in pm && (t.LeafT? <==> h == 1) && h >= 1
    ensures c.Valid() && Wf(t, h, c, true) && Describes(pm, header, t, h) && header !in PagesOf(t)
  {
    assert multiset(pm.Keys)[header] == 1;
  }

  lemma RootWhole(pm: PageMap, next: PageId, pm1: PageMap, next1: PageId, newChild: PageKeyPair,
                  t: Tree, e: Entry, h: nat, c: Capacity, header: PageId)
    requires Holds(pm, next, t, h, c, header) && newChild.pageNo == INVALID_NUMBER
    requires Inserted(pm, next, pm1, next1, newChild, t, e, INVALID_NUMBER, h, c, true)
    ensures var t1 := InsertRoot(t, e, next, h, c).0;
      Holds(pm1, next1, t1, h, c, header) && t1.pid == t.pid && InOrder(t1) == InsertSorted(InOrder(t), e)
  {
    hide Wf, Rep, PagesOf, InOrder, Insert;
    HoldsRoot(pm, next, t, h, c, header);
    InsertCorrect(t, e, next, h, c, true);
    InsertPages(t, e, next, h, c, true);
    InsertHead(t, e, next, h, c, true);
    InsertSortedKeepsSorted(InOrder(t), e);
    GrewPages(pm, next, pm1, next1);
  }

  lemma NewRootWf(l: Tree, k: int, r: Tree, pid: PageId, h: nat, c: Capacity)
    requires c.Valid() && Wf(l, h, c, false) && Wf(r, h, c, false) && FirstKeyIs(r, k) && h >= 1
    ensures Wf(InnerT(pid, [k], [l, r]), h + 1, c, true)
    ensures InOrder(InnerT(pid, [k], [l, r])) == InOrder(l) + InOrder(r)
    ensures PagesOf(InnerT(pid, [k], [l, r])) == multiset{pid} + PagesOf(l) + PagesOf(r)
  {
    hide InOrder, PagesOf;
    var t := InnerT(pid, [k], [l, r]);
    assert AllWf(t.kids, h, c) && Separators(t.keys, t.kids);
    NewRootOrder(l, k, r, pid);
    PartsPages(Halves(l, k, r));
    NewRootOwn(l, k, r, pid);
  }

  lemma NewRootOrder(l: Tree, k: int, r: Tree, pid: PageId)
    ensures InOrder(InnerT(pid, [k], [l, r])) == InOrder(l) + InOrder(r)
  {
    ConcatPair(l, r);
  }

  lemma NewRootOwn(l: Tree, k: int, r: Tree, pid: PageId)
    ensures PagesOf(InnerT(pid, [k], [l, r])) == multiset{pid} + PagesAll([l, r])
  {
  }

  lemma ConcatPair(l: Tree, r: Tree)
    ensures Concat([l, r]) == InOrder(l) + InOrder(r)
  {
    assert [l, r] == [l] + [r];
    ConcatAppend([l], [r]);
  }

  lemma NewRootRep(pm: PageMap, img: Image, l: Tree, k: int, r: Tree, pid: PageId, h: nat, c: Capacity)
    requires pid !in pm && Rep(pm, l, FirstLeaf(r), h, c, false) && Rep(pm, r, INVALID_NUMBER, h, c, false)
    requires InnerHolds(img, LevelOf(h + 1), [k], [l.pid, r.pid], c, true)
    ensures Rep(pm[pid := img], InnerT(pid, [k], [l, r]), INVALID_NUMBER, h + 1, c, true)
  {
    hide InnerHolds;
    var pm1 := pm[pid := img];
    assert forall p :: p in pm ==> p in pm1 && pm1[p] == pm[p];
    RepFrame(pm, pm1, l, FirstLeaf(r), h, c, false);
    RepFrame(pm, pm1, r, INVALID_NUMBER, h, c, false);
    assert Pids([l, r]) == [l.pid, r.pid];
    assert RepAll(pm1, [l, r], INVALID_NUMBER, h, c);
  }

  lemma HeightPositive(t: Tree, h: nat, c: Capacity, root: bool)
    requires Wf(t, h, c, root)
    ensures h >= 1
  {}

  /** The pages once a new root has been written and the meta page names it. */
  ghost function Rerooted(pm: PageMap, header: PageId, root: PageId, img: Image, h: nat): PageMap {
    pm[header := MetaImage(root, h)][root := img]
  }

  lemma NewRootHolds(pm: PageMap, next: PageId, img: Image, l: Tree, k: int, r: Tree, h: nat, c: Capacity,
                     header: PageId)
    requires c.Valid() && h >= 1 && INVALID_NUMBER < next && forall p :: p in pm ==> p < next
    requires Wf(l, h, c, false) && Wf(r, h, c, false) && FirstKeyIs(r, k) && Sorted(InOrder(l) + InOrder(r))
    requires Rep(pm, l, FirstLeaf(r), h, c, false) && Rep(pm, r, INVALID_NUMBER, h, c, false)
    requires PagesOf(l) + PagesOf(r) + multiset{header} == multiset(pm.Keys)
    requires InnerHolds(img, LevelOf(h + 1), [k], [l.pid, r.pid], c, true)
    ensures Holds(Rerooted(pm, header, next, img, h + 1), next + 1, InnerT(next, [k], [l, r]), h + 1, c, header)
    ensures InOrder(InnerT(next, [k], [l, r])) == InOrder(l) + InOrder(r)
  {
    hide Wf, Rep, PagesOf, InOrder, InnerHolds, FirstLeaf, FirstKeyIs, Sorted;
    var pm0 := pm[header := MetaImage(next, h + 1)];
    NewRootPages(pm, next, img, PagesOf(l) + PagesOf(r), header, h);
    HeaderFrame(pm, header, MetaImage(next, h + 1), l, FirstLeaf(r), h, c);
    HeaderFrame(pm, header, MetaImage(next, h + 1), r, INVALID_NUMBER, h, c);
    NewRootWf(l, k, r, next, h, c);
    NewRootRep(pm0, img, l, k, r, next, h, c);
  }

  lemma HeaderFrame(pm: PageMap, header: PageId, meta: Image, t: Tree, after: PageId, h: nat, c: Capacity)
    requires Rep(pm, t, after, h, c, false) && header !in PagesOf(t)
    ensures Rep(pm[header := meta], t, after, h, c, false)
  {
    hide Rep, PagesOf;
    RepFrame(pm, pm[header := meta], t, after, h, c, false);
  }

  lemma NewRootPages(pm: PageMap, next: PageId, img: Image, pages: multiset<PageId>, header: PageId, h: nat)
    requires INVALID_NUMBER < next && (forall p :: p in pm ==> p < next)
    requires pages + multiset{header} == multiset(pm.Keys)
    ensures header in pm && header !in pages && next != header && next !in pm
    ensures var pm1 := Rerooted(pm, header, next, img, h + 1);
      && multiset{next} + pages + multiset{header} == multiset(pm1.Keys)
      && header in pm1 && pm1[header] == MetaImage(next, h + 1)
  {
    assert multiset(pm.Keys)[header] == 1;
    var pm0 := pm[header := MetaImage(next, h + 1)];
    assert pm0[next := img].Keys == pm.Keys + {next};
    assert multiset(pm.Keys + {next}) == multiset(pm.Keys) + multiset{next};
  }

  lemma RootHalves(pm: PageMap, next: PageId, pm1: PageMap, next1: PageId, newChild: PageKeyPair,
                   t: Tree, e: Entry, h: nat, c: Capacity, header: PageId, img: Image)
    requires Holds(pm, next, t, h, c, header) && newChild.pageNo != INVALID_NUMBER
    requires Inserted(pm, next, pm1, next1, newChild, t, e, INVALID_NUMBER, h, c, true)
    requires InnerHolds(img, LevelOf(h + 1), [newChild.key], [t.pid, newChild.pageNo], c, true)
    ensures var t1 := InsertRoot(t, e, next, h, c).0;
      && Holds(Rerooted(pm1, header, next1, img, h + 1), next1 + 1, t1, h + 1, c, header)
      && t1.pid == next1 && InOrder(t1) == InsertSorted(InOrder(t), e)
  {
    hide Wf, Rep, PagesOf, InOrder, Insert, InnerHolds, FirstLeaf, FirstKeyIs, InsertSorted, NewPages;
    HeightPositive(t, h, c, true);
    HoldsRoot(pm, next, t, h, c, header);
    InsertCorrect(t, e, next, h, c, true);
    InsertPages(t, e, next, h, c, true);
    InsertHead(t, e, next, h, c, true);
    InsertSortedKeepsSorted(InOrder(t), e);
    GrewPages(pm, next, pm1, next1);
    var g := Insert(t, e, next, h, c, true).0;
    NewRootHolds(pm1, next1, img, g.left, g.key, g.right, h, c, header);
  }

  /** No page below the old end of the file appeared. */
  lemma InsertedGrew(pm: PageMap, next: PageId, pm1: PageMap, next1: PageId, newChild: PageKeyPair,
                     t: Tree, e: Entry, after: PageId, h: nat, c: Capacity, root: bool)
    requires Laid(pm, next, t, after, h, c, root) && Inserted(pm, next, pm1, next1, newChild, t, e, after, h, c, root)
    ensures next <= next1 && (forall p :: p in pm1 ==> p in pm || next <= p < next1) && forall p :: p in pm ==> p in pm1
  {}

  /** A new index: the meta page and one empty leaf. */
  lemma EmptyHolds(header: PageId, pid: PageId, img: Image, c: Capacity)
    requires c.Valid() && pid != INVALID_NUMBER && header < pid && LeafHolds(img, [], INVALID_NUMBER, c)
    ensures Holds(map[header := MetaImage(pid, 1), pid := img], pid + 1, LeafT(pid, []), 1, c, header)
  {}
}
