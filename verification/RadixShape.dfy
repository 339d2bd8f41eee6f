/** The radix tree of p1/wl.cpp seen as a map from path to node, its meaning as a map from
    word to occurrence list, and what splitting and insertion do to them. */
module RadixShape {
  /** One node: the edge label leading to it, its occurrence list, its children's paths. */
  datatype Info = Info(prefix: string, counts: seq<nat>, kids: seq<string>)

  type Shape = map<string, Info>

  /** Index of the first difference of two strings that agree at index 0, from j on; -1
      when they agree up to the shorter one's length. */
  function DiffIndex(a: string, b: string, j: nat): (d: int)
    ensures d == -1 || (j <= d < |a| && d < |b| && a[d] != b[d])
    ensures forall i :: j <= i < |a| && i < |b| && (d == -1 || i < d) ==> a[i] == b[i]
    decreases |a| - j
  {
    if j >= |a| || j >= |b| then -1
    else if a[j] != b[j] then j
    else DiffIndex(a, b, j + 1)
  }

  /** The first character of the edge from u to its child k. */
  function Head(u: string, k: string): char {
    if |u| < |k| then k[|u|] else ' '
  }

  /** Index of the child of u whose edge starts with c, or |kids|. */
  function FindKid(kids: seq<string>, u: string, c: char): (j: nat)
    ensures j <= |kids| && (j < |kids| ==> Head(u, kids[j]) == c)
    ensures forall i :: 0 <= i < j ==> Head(u, kids[i]) != c
  {
    if kids == [] || Head(u, kids[0]) == c then 0 else FindKid(kids[1..], u, c) + 1
  }

  ghost predicate IsKid(shape: Shape, u: string, k: string) {
    k in shape && shape[k].prefix != "" && k == u + shape[k].prefix
  }

  ghost predicate KidsAt(shape: Shape, u: string)
    requires u in shape
  {
    && (forall i :: 0 <= i < |shape[u].kids| ==> IsKid(shape, u, shape[u].kids[i]))
    && (forall i, j :: 0 <= i < j < |shape[u].kids| ==> Head(u, shape[u].kids[i]) != Head(u, shape[u].kids[j]))
  }

  /** Some child of u is w or an ancestor of w. */
  ghost predicate Leads(shape: Shape, u: string, w: string)
    requires u in shape
  {
    exists i :: 0 <= i < |shape[u].kids| && shape[u].kids[i] <= w
  }

  ghost predicate Wf(shape: Shape) {
    && "" in shape && shape[""].prefix == "" && shape[""].counts == []
    && (forall u :: u in shape ==> KidsAt(shape, u))
    && (forall u, w :: u in shape && w in shape && u < w ==> Leads(shape, u, w))
  }

  /** What the tree means: every word's occurrence list. */
  ghost function Meaning(shape: Shape): map<string, seq<nat>> {
    map w | w in shape && shape[w].counts != [] :: shape[w].counts
  }

  ghost function Empty(): Shape {
    map["" := Info("", [], [])]
  }

  lemma EmptyWf()
    ensures Wf(Empty()) && Meaning(Empty()) == map[]
  {
  }

  ghost function CountsOf(m: map<string, seq<nat>>, w: string): seq<nat> {
    if w in m then m[w] else []
  }

  /** A new leaf under u. */
  ghost function WithLeaf(shape: Shape, u: string, sub: string, count: nat): Shape
    requires u in shape
  {
    shape[u + sub := Info(sub, [count], [])][u := shape[u].(kids := shape[u].kids + [u + sub])]
  }

  /** One more occurrence at node w. */
  ghost function WithCount(shape: Shape, w: string, count: nat): Shape
    requires w in shape
  {
    shape[w := shape[w].(counts := shape[w].counts + [count])]
  }

  /** Where the edge to child i of u is cut at index d. */
  ghost function CutAt(shape: Shape, u: string, i: nat, d: nat): string
    requires u in shape && i < |shape[u].kids| && shape[u].kids[i] in shape && d <= |shape[shape[u].kids[i]].prefix|
  {
    u + shape[shape[u].kids[i]].prefix[..d]
  }

  /** The edge to child i of u cut at index d: a bare node takes the child's place, and the
      child, its list and its children move below it. */
  ghost function Cut(shape: Shape, u: string, i: nat, d: nat): Shape
    requires u in shape && i < |shape[u].kids| && shape[u].kids[i] in shape && d <= |shape[shape[u].kids[i]].prefix|
  {
    var k := shape[u].kids[i];
    var p, v := shape[k].prefix, CutAt(shape, u, i, d);
    shape[v := Info(p[..d], [], [k])][k := shape[k].(prefix := p[d..])][u := shape[u].(kids := shape[u].kids[i := v])]
  }

  /** The facts a split starts from. */
  ghost predicate Cuttable(shape: Shape, u: string, i: nat, d: nat) {
    && Wf(shape) && u in shape && i < |shape[u].kids| && shape[u].kids[i] in shape
    && 0 < d < |shape[shape[u].kids[i]].prefix|
  }

  /** With distinct edge characters, a child is the only way on. */
  lemma OnlyWay(shape: Shape, u: string, i: nat, w: string)
    requires Wf(shape) && u in shape && i < |shape[u].kids| && w in shape && u < w
    requires w[|u|] == Head(u, shape[u].kids[i])
    ensures shape[u].kids[i] <= w
  {
    assert Leads(shape, u, w);
    var j :| 0 <= j < |shape[u].kids| && shape[u].kids[j] <= w;
    assert KidsAt(shape, u) && IsKid(shape, u, shape[u].kids[j]);
  }

  /** No node lies on the edge to be cut. */
  lemma CutIsNew(shape: Shape, u: string, i: nat, d: nat)
    requires Cuttable(shape, u, i, d)
    ensures CutAt(shape, u, i, d) !in shape
    ensures u < CutAt(shape, u, i, d) < shape[u].kids[i] && IsKid(shape, u, shape[u].kids[i])
  {
    var k, v := shape[u].kids[i], CutAt(shape, u, i, d);
    assert KidsAt(shape, u) && IsKid(shape, u, k);
    if v in shape {
      OnlyWay(shape, u, i, v);
    }
  }

  /** A child's path is its parent's and its own; no node has two parents. */
  lemma OneParent(shape: Shape, u: string, w: string, k: string)
    requires IsKid(shape, u, k) && IsKid(shape, w, k)
    ensures u == w
  {
    assert k[..|u|] == u && k[..|w|] == w;
  }

  lemma KidOf(shape: Shape, u: string, i: nat)
    requires Wf(shape) && u in shape && i < |shape[u].kids|
    ensures IsKid(shape, u, shape[u].kids[i]) && u < shape[u].kids[i]
  {
  }

  lemma SameKid(shape: Shape, u: string, i: nat, w: string, j: nat)
    requires Wf(shape) && u in shape && i < |shape[u].kids| && w in shape && j < |shape[w].kids|
    requires shape[u].kids[i] == shape[w].kids[j]
    ensures u == w && i == j
  {
    KidOf(shape, u, i);
    KidOf(shape, w, j);
    OneParent(shape, u, w, shape[u].kids[i]);
    assert KidsAt(shape, u);
  }

  /** The cut tree, node by node. */
  lemma CutNodes(shape: Shape, u: string, i: nat, d: nat)
    requires Cuttable(shape, u, i, d)
    ensures var k, v, shape1 := shape[u].kids[i], CutAt(shape, u, i, d), Cut(shape, u, i, d);
            var p := shape[k].prefix;
            && (forall w :: w in shape1 <==> w in shape || w == v)
            && u != k && v != u && v != k
            && shape1[v] == Info(p[..d], [], [k])
            && shape1[k] == shape[k].(prefix := p[d..])
            && shape1[u] == shape[u].(kids := shape[u].kids[i := v])
            && (forall w :: w in shape && w != u && w != k ==> shape1[w] == shape[w])
  {
    hide Wf;
    CutIsNew(shape, u, i, d);
  }

  lemma CutKid(shape: Shape, u: string, i: nat, d: nat, w: string, j: nat)
    requires Cuttable(shape, u, i, d) && w in Cut(shape, u, i, d) && j < |Cut(shape, u, i, d)[w].kids|
    ensures IsKid(Cut(shape, u, i, d), w, Cut(shape, u, i, d)[w].kids[j])
  {
    hide Wf, Cut;
    var k, v, shape1 := shape[u].kids[i], CutAt(shape, u, i, d), Cut(shape, u, i, d);
    CutIsNew(shape, u, i, d);
    CutNodes(shape, u, i, d);
    if w in shape && !(w == u && j == i) {
      KidOf(shape, w, j);
      if shape[w].kids[j] == k {
        SameKid(shape, u, i, w, j);
      }
    }
  }

  lemma CutKids(shape: Shape, u: string, i: nat, d: nat, w: string)
    requires Cuttable(shape, u, i, d) && w in Cut(shape, u, i, d)
    ensures KidsAt(Cut(shape, u, i, d), w)
  {
    hide Wf, Cut, IsKid;
    var k, v, shape1 := shape[u].kids[i], CutAt(shape, u, i, d), Cut(shape, u, i, d);
    CutIsNew(shape, u, i, d);
    CutNodes(shape, u, i, d);
    forall j | 0 <= j < |shape1[w].kids| ensures IsKid(shape1, w, shape1[w].kids[j]) {
      CutKid(shape, u, i, d, w, j);
    }
    if w in shape {
      assert KidsAt(shape, w) by {
        AllKids(shape, w);
      }
    }
  }

  lemma AllKids(shape: Shape, w: string)
    requires Wf(shape) && w in shape
    ensures KidsAt(shape, w)
  {
  }

  /** In the cut tree every node still leads to every node below it. */
  lemma CutLeads(shape: Shape, u: string, i: nat, d: nat, x: string, w: string)
    requires Cuttable(shape, u, i, d) && x in Cut(shape, u, i, d) && w in Cut(shape, u, i, d) && x < w
    ensures Leads(Cut(shape, u, i, d), x, w)
  {
    hide Wf, Cut;
    var k, v, shape1 := shape[u].kids[i], CutAt(shape, u, i, d), Cut(shape, u, i, d);
    CutIsNew(shape, u, i, d);
    CutNodes(shape, u, i, d);
    if x == v {
      OnlyWay(shape, u, i, w);
      assert shape1[v].kids[0] <= w;
    } else if w == v {
      CutLeadsToNew(shape, u, i, d, x);
    } else {
      var j := Way(shape, x, w);
      if x == u && j == i {
        assert shape1[u].kids[i] <= w;
      } else {
        assert shape1[x].kids[j] <= w;
      }
    }
  }

  lemma Way(shape: Shape, x: string, w: string) returns (j: nat)
    requires Wf(shape) && x in shape && w in shape && x < w
    ensures j < |shape[x].kids| && shape[x].kids[j] <= w
  {
    assert Leads(shape, x, w);
    j :| 0 <= j < |shape[x].kids| && shape[x].kids[j] <= w;
  }

  lemma CutLeadsToNew(shape: Shape, u: string, i: nat, d: nat, x: string)
    requires Cuttable(shape, u, i, d) && x in shape && x < CutAt(shape, u, i, d)
    ensures Leads(Cut(shape, u, i, d), x, CutAt(shape, u, i, d))
  {
    hide Wf, Cut;
    var k, v, shape1 := shape[u].kids[i], CutAt(shape, u, i, d), Cut(shape, u, i, d);
    CutIsNew(shape, u, i, d);
    CutNodes(shape, u, i, d);
    if x == u {
      assert shape1[u].kids[i] <= v;
    } else if |x| > |u| {
      // x would lie on the edge
      assert u < x && x[|u|] == Head(u, k);
      OnlyWay(shape, u, i, x);
    } else {
      assert x < u;
      var j := Way(shape, x, u);
      assert shape1[x].kids[j] <= v;
    }
  }

  /** Cutting an edge keeps the tree well formed and means nothing. */
  lemma CutKeeps(shape: Shape, u: string, i: nat, d: nat)
    requires Cuttable(shape, u, i, d)
    ensures Wf(Cut(shape, u, i, d)) && Meaning(Cut(shape, u, i, d)) == Meaning(shape)
  {
    hide Cut, KidsAt, Leads;
    var shape1 := Cut(shape, u, i, d);
    CutIsNew(shape, u, i, d);
    CutNodes(shape, u, i, d);
    forall w | w in shape1 ensures KidsAt(shape1, w) {
      CutKids(shape, u, i, d, w);
    }
    forall x, w | x in shape1 && w in shape1 && x < w ensures Leads(shape1, x, w) {
      CutLeads(shape, u, i, d, x, w);
    }
  }

  ghost predicate NoKid(shape: Shape, u: string, c: char)
    requires u in shape
  {
    forall i :: 0 <= i < |shape[u].kids| ==> Head(u, shape[u].kids[i]) != c
  }

  /** Without a child for the next character, nothing below u starts with it. */
  lemma NothingThere(shape: Shape, u: string, c: char, w: string)
    requires Wf(shape) && u in shape && NoKid(shape, u, c) && w in shape && u < w
    ensures w[|u|] != c
  {
    var j := Way(shape, u, w);
    KidOf(shape, u, j);
  }

  lemma LeafKid(shape: Shape, u: string, sub: string, count: nat, w: string)
    requires Wf(shape) && u in shape && sub != "" && NoKid(shape, u, sub[0]) && u + sub !in shape
    requires w in WithLeaf(shape, u, sub, count)
    ensures KidsAt(WithLeaf(shape, u, sub, count), w)
  {
  }

  lemma LeafLeads(shape: Shape, u: string, sub: string, count: nat, x: string, w: string)
    requires Wf(shape) && u in shape && sub != "" && NoKid(shape, u, sub[0]) && u + sub !in shape
    requires x in WithLeaf(shape, u, sub, count) && w in WithLeaf(shape, u, sub, count) && x < w
    ensures Leads(WithLeaf(shape, u, sub, count), x, w)
  {
    hide Wf, NoKid;
    var leaf, shape1 := u + sub, WithLeaf(shape, u, sub, count);
    if x in shape && w in shape {
      var j := Way(shape, x, w);
      assert shape1[x].kids[j] <= w;
    } else if x == leaf {
      NothingThere(shape, u, sub[0], w);
    } else if |x| > |u| {
      assert u < x;
      NothingThere(shape, u, sub[0], x);
    } else if x == u {
      assert shape1[u].kids[|shape[u].kids|] <= w;
    } else {
      assert x < u;
      var j := Way(shape, x, u);
      assert shape1[x].kids[j] <= w;
    }
  }

  /** A new leaf keeps the tree well formed and gives one new word its first occurrence. */
  lemma LeafKeeps(shape: Shape, u: string, sub: string, count: nat)
    requires Wf(shape) && u in shape && sub != "" && NoKid(shape, u, sub[0])
    ensures u + sub !in shape && Wf(WithLeaf(shape, u, sub, count))
    ensures Meaning(WithLeaf(shape, u, sub, count))
         == Meaning(shape)[u + sub := CountsOf(Meaning(shape), u + sub) + [count]]
  {
    hide KidsAt, Leads, NoKid;
    var shape1 := WithLeaf(shape, u, sub, count);
    if u + sub in shape {
      NothingThere(shape, u, sub[0], u + sub);
    }
    assert CountsOf(Meaning(shape), u + sub) + [count] == [count];
    forall w | w in shape1 ensures KidsAt(shape1, w) {
      LeafKid(shape, u, sub, count, w);
    }
    forall x, w | x in shape1 && w in shape1 && x < w ensures Leads(shape1, x, w) {
      LeafLeads(shape, u, sub, count, x, w);
    }
  }

  /** One more occurrence of a node's word. */
  lemma CountKeeps(shape: Shape, w: string, count: nat)
    requires Wf(shape) && w in shape && w != ""
    ensures Wf(WithCount(shape, w, count))
    ensures Meaning(WithCount(shape, w, count)) == Meaning(shape)[w := CountsOf(Meaning(shape), w) + [count]]
  {
    var shape1 := WithCount(shape, w, count);
    forall x | x in shape1 ensures KidsAt(shape1, x) {
      AllKids(shape, x);
      forall j | 0 <= j < |shape1[x].kids| ensures IsKid(shape1, x, shape1[x].kids[j]) {
        assert IsKid(shape, x, shape[x].kids[j]);
      }
    }
    forall x, y | x in shape1 && y in shape1 && x < y ensures Leads(shape1, x, y) {
      var j := Way(shape, x, y);
      assert shape1[x].kids[j] <= y;
    }
  }

  /** The word an insertion of u + rest really stores: past a split the source moves on by
      one character, whatever the index it split at. */
  ghost function Stored(shape: Shape, u: string, rest: string): string
    requires Wf(shape) && u in shape && rest != ""
    decreases |rest|, 1
  {
    var i := FindKid(shape[u].kids, u, rest[0]);
    if i == |shape[u].kids| then u + rest
    else
      KidOf(shape, u, i);
      StoredOn(shape, u, shape[shape[u].kids[i]].prefix, shape[u].kids[i], rest)
  }

  /** The same on an edge labelled p from (real or future) node u to k. */
  ghost function StoredOn(shape: Shape, u: string, p: string, k: string, rest: string): string
    requires Wf(shape) && k in shape && p != "" && rest != ""
    decreases |rest|, 0
  {
    var d := DiffIndex(p, rest, 1);
    if d != -1 then
      if rest[1] == p[d] then StoredOn(shape, u + p[..d], p[d..], k, rest[1..]) else u + p[..d] + rest[1..]
    else if |rest| > |p| then Stored(shape, k, rest[|p|..])
    else u + rest
  }

  /** Index at which inserting u + rest first splits an edge whose label it leaves; 0 if never. */
  ghost function FirstSplit(shape: Shape, u: string, rest: string): nat
    requires Wf(shape) && u in shape && rest != ""
    decreases |rest|
  {
    var i := FindKid(shape[u].kids, u, rest[0]);
    if i == |shape[u].kids| then 0
    else
      KidOf(shape, u, i);
      var k := shape[u].kids[i];
      var p := shape[k].prefix;
      var d := DiffIndex(p, rest, 1);
      if d != -1 then d
      else if |rest| > |p| then FirstSplit(shape, k, rest[|p|..])
      else 0
  }

  lemma {:induction false} StoredOnLength(shape: Shape, u: string, p: string, k: string, rest: string)
    requires Wf(shape) && k in shape && p != "" && rest != "" && k == u + p
    ensures |StoredOn(shape, u, p, k, rest)| >= |u| + |rest|
    decreases |rest|, 0
  {
    var d := DiffIndex(p, rest, 1);
    if d != -1 {
      if rest[1] == p[d] {
        assert k == (u + p[..d]) + p[d..];
        StoredOnLength(shape, u + p[..d], p[d..], k, rest[1..]);
      }
    } else if |rest| > |p| {
      StoredLength(shape, k, rest[|p|..]);
    }
  }

  lemma {:induction false} StoredLength(shape: Shape, u: string, rest: string)
    requires Wf(shape) && u in shape && rest != ""
    ensures |Stored(shape, u, rest)| >= |u| + |rest|
    decreases |rest|, 1
  {
    var i := FindKid(shape[u].kids, u, rest[0]);
    if i < |shape[u].kids| {
      KidOf(shape, u, i);
      StoredOnLength(shape, u, shape[shape[u].kids[i]].prefix, shape[u].kids[i], rest);
    }
  }

  /** One step of the insertion, unfolded. */
  lemma StoredStep(shape: Shape, u: string, i: nat, rest: string)
    requires Wf(shape) && u in shape && rest != "" && i == FindKid(shape[u].kids, u, rest[0])
    ensures i == |shape[u].kids| ==> Stored(shape, u, rest) == u + rest && FirstSplit(shape, u, rest) == 0
    ensures i < |shape[u].kids| ==>
      var k := shape[u].kids[i];
      && IsKid(shape, u, k) && shape[k].prefix[0] == rest[0]
      && Stored(shape, u, rest) == StoredOn(shape, u, shape[k].prefix, k, rest)
      && var n, d := |shape[k].prefix|, DiffIndex(shape[k].prefix, rest, 1);
         FirstSplit(shape, u, rest) == if d != -1 then d else if |rest| > n then FirstSplit(shape, k, rest[n..]) else 0
  {
    if i < |shape[u].kids| {
      KidOf(shape, u, i);
    }
  }

  lemma StoredOnStep(shape: Shape, u: string, p: string, k: string, rest: string)
    requires Wf(shape) && k in shape && p != "" && rest != ""
    ensures var d := DiffIndex(p, rest, 1);
      if d != -1 then
        StoredOn(shape, u, p, k, rest) == if rest[1] == p[d] then StoredOn(shape, u + p[..d], p[d..], k, rest[1..])
                                          else u + p[..d] + rest[1..]
      else
        StoredOn(shape, u, p, k, rest) == if |rest| > |p| then Stored(shape, k, rest[|p|..]) else u + rest
  {
  }

  /** The stored word is the inserted one exactly when the first edge split, if any, is
      split right behind its first character; otherwise it is a longer one. */
  lemma {:induction false} StoredIsWord(shape: Shape, u: string, rest: string)
    requires Wf(shape) && u in shape && rest != ""
    ensures FirstSplit(shape, u, rest) <= 1 ==> Stored(shape, u, rest) == u + rest
    ensures FirstSplit(shape, u, rest) > 1 ==> |Stored(shape, u, rest)| > |u| + |rest|
    decreases |rest|
  {
    hide Wf, Stored, StoredOn, FirstSplit, FindKid, DiffIndex;
    var i := FindKid(shape[u].kids, u, rest[0]);
    StoredStep(shape, u, i, rest);
    if i < |shape[u].kids| {
      var k := shape[u].kids[i];
      var p := shape[k].prefix;
      StoredOnStep(shape, u, p, k, rest);
      if DiffIndex(p, rest, 1) != -1 {
        SplitStores(shape, u, p, k, rest);
      } else if |rest| > |p| {
        assert p == rest[..|p|];
        assert u + rest == k + rest[|p|..];
        StoredIsWord(shape, k, rest[|p|..]);
      }
    }
  }

  /** A split at index 1 is repaired by the next step; a later one lengthens the word. */
  lemma SplitStores(shape: Shape, u: string, p: string, k: string, rest: string)
    requires Wf(shape) && k in shape && p != "" && rest != "" && k == u + p && p[0] == rest[0]
    requires DiffIndex(p, rest, 1) != -1
    ensures DiffIndex(p, rest, 1) == 1 ==> StoredOn(shape, u, p, k, rest) == u + rest
    ensures DiffIndex(p, rest, 1) > 1 ==> |StoredOn(shape, u, p, k, rest)| > |u| + |rest|
  {
    hide Wf, Stored, StoredOn, DiffIndex;
    var d := DiffIndex(p, rest, 1);
    StoredOnStep(shape, u, p, k, rest);
    if rest[1] == p[d] {
      assert k == (u + p[..d]) + p[d..];
      StoredOnLength(shape, u + p[..d], p[d..], k, rest[1..]);
    } else if d == 1 {
      assert u + p[..1] + rest[1..] == u + rest;
    }
  }

  /** Below the cut the insertion goes on as before. */
  lemma {:induction false} SameBelow(shape: Shape, u: string, i: nat, d: nat, w: string, rest: string)
    requires Cuttable(shape, u, i, d) && Wf(Cut(shape, u, i, d)) && w in shape && shape[u].kids[i] <= w && rest != ""
    ensures w in Cut(shape, u, i, d) && Stored(Cut(shape, u, i, d), w, rest) == Stored(shape, w, rest)
    decreases |rest|, 1
  {
    hide Wf, Cut, Stored, StoredOn, FirstSplit;
    var shape1, j := Cut(shape, u, i, d), FindKid(shape[w].kids, w, rest[0]);
    CutIsNew(shape, u, i, d);
    CutNodes(shape, u, i, d);
    StoredStep(shape, w, j, rest);
    StoredStep(shape1, w, j, rest);
    if j < |shape[w].kids| {
      var x := shape[w].kids[j];
      SameBelowOn(shape, u, i, d, w, shape[x].prefix, x, rest);
    }
  }

  lemma {:induction false} SameBelowOn(shape: Shape, u: string, i: nat, d: nat, w: string, p: string, x: string,
                                       rest: string)
    requires Cuttable(shape, u, i, d) && Wf(Cut(shape, u, i, d)) && x in shape && shape[u].kids[i] <= x && p != ""
    requires rest != ""
    ensures x in Cut(shape, u, i, d) && StoredOn(Cut(shape, u, i, d), w, p, x, rest) == StoredOn(shape, w, p, x, rest)
    decreases |rest|, 0
  {
    hide Wf, Cut, Stored, StoredOn, FirstSplit;
    var shape1, e := Cut(shape, u, i, d), DiffIndex(p, rest, 1);
    CutNodes(shape, u, i, d);
    StoredOnStep(shape, w, p, x, rest);
    StoredOnStep(shape1, w, p, x, rest);
    if e != -1 {
      if rest[1] == p[e] {
        SameBelowOn(shape, u, i, d, w + p[..e], p[e..], x, rest[1..]);
      }
    } else if |rest| > |p| {
      SameBelow(shape, u, i, d, x, rest[|p|..]);
    }
  }

  /** After the split the insertion goes on from the new node with all but one character. */
  lemma CutStores(shape: Shape, u: string, i: nat, d: nat, rest: string)
    requires Cuttable(shape, u, i, d) && Wf(Cut(shape, u, i, d)) && rest != ""
    requires i == FindKid(shape[u].kids, u, rest[0]) && d == DiffIndex(shape[shape[u].kids[i]].prefix, rest, 1)
    ensures CutAt(shape, u, i, d) in Cut(shape, u, i, d) && |rest| > 1
    ensures Stored(Cut(shape, u, i, d), CutAt(shape, u, i, d), rest[1..]) == Stored(shape, u, rest)
  {
    hide Wf, Cut, Stored, StoredOn, FirstSplit;
    var k, v, shape1 := shape[u].kids[i], CutAt(shape, u, i, d), Cut(shape, u, i, d);
    var p := shape[k].prefix;
    CutIsNew(shape, u, i, d);
    CutNodes(shape, u, i, d);
    StoredStep(shape, u, i, rest);
    StoredOnStep(shape, u, p, k, rest);
    var j := if rest[1] == p[d] then 0 else 1;
    assert Head(v, k) == p[d];
    FindOnly(k, v, rest[1]);
    StoredStep(shape1, v, j, rest[1..]);
    if rest[1] == p[d] {
      SameBelowOn(shape, u, i, d, v, p[d..], k, rest[1..]);
    }
  }

  lemma FindOnly(k: string, v: string, c: char)
    ensures FindKid([k], v, c) == if Head(v, k) == c then 0 else 1
  {
  }

  /** A word of the tree is reached through the child its next character names. */
  lemma WayOn(shape: Shape, u: string, j: nat, word: string)
    requires Wf(shape) && u in shape && u < word && j == FindKid(shape[u].kids, u, word[|u|])
    ensures word in shape ==> j < |shape[u].kids| && shape[u].kids[j] <= word
    ensures j < |shape[u].kids| ==> IsKid(shape, u, shape[u].kids[j])
  {
    if j < |shape[u].kids| {
      KidOf(shape, u, j);
    }
    if word in shape {
      var m := Way(shape, u, word);
      KidOf(shape, u, m);
      if j < |shape[u].kids| {
        OnlyWay(shape, u, j, word);
      }
    }
  }

  lemma FindIs(kids: seq<string>, u: string, c: char, j: nat)
    requires j <= |kids| && (j < |kids| ==> Head(u, kids[j]) == c) && forall i :: 0 <= i < j ==> Head(u, kids[i]) != c
    ensures FindKid(kids, u, c) == j
  {
  }

  lemma RootIs(shape: Shape)
    requires Wf(shape)
    ensures "" in shape && shape[""].prefix == "" && shape[""].counts == []
  {
  }

  /** A tree that holds one word, and an insertion that leaves it at index 2. */
  lemma LateSplit(first: string, word: string)
    requires |first| > 2 && |word| > 2 && first[..2] == word[..2] && first[2] != word[2] && first[2] != word[1]
    ensures Wf(WithLeaf(Empty(), "", first, 1))
    ensures Stored(WithLeaf(Empty(), "", first, 1), "", word) == first[..2] + word[1..]
  {
    hide Wf, Stored, StoredOn, FirstSplit;
    EmptyWf();
    LeafKeeps(Empty(), "", first, 1);
    var shape := WithLeaf(Empty(), "", first, 1);
    assert "" + first == first && shape[""].kids == [first];
    assert first[0] == first[..2][0] == word[0] && first[1] == first[..2][1] == word[1];
    StoredStep(shape, "", 0, word);
    assert DiffIndex(first, word, 2) == 2;
    StoredOnStep(shape, "", first, first, word);
    assert "" + first[..2] == first[..2];
  }

  /** With "song" in the tree, inserting "sofa" stores "soofa". */
  lemma SofaBecomesSoofa()
    ensures Wf(WithLeaf(Empty(), "", "song", 1)) && Stored(WithLeaf(Empty(), "", "song", 1), "", "sofa") == "soofa"
  {
    hide Wf, Stored;
    LateSplit("song", "sofa");
    assert "song"[..2] + "sofa"[1..] == "soofa";
  }
}
