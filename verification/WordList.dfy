/** The radix tree of p1/wl.cpp on the heap: nodes mutated in place, and the loading of a
    text into it. */
module WordLists {
  import opened RadixShape
  import opened Concordance
  import opened Tokenizer

  class Node {
    var prefix: string
    var counts: seq<nat>
    var children: seq<Node>

    constructor (prefix: string)
      ensures this.prefix == prefix && counts == [] && children == []
    {
      this.prefix, counts, children := prefix, [], [];
    }
  }

  /** Dictionary::Node::Diff: the first index past 0 where two strings differ. */
  method Diff(str1: string, str2: string) returns (iDiff: int)
    ensures iDiff == DiffIndex(str1, str2, 1)
  {
    var maxLength := if |str1| < |str2| then |str1| else |str2|;
    iDiff := -1;
    var j := 1;
    while j < maxLength
      invariant 1 <= j && DiffIndex(str1, str2, 1) == DiffIndex(str1, str2, j)
    {
      if str1[j] != str2[j] {
        return j;
      }
      j := j + 1;
    }
  }

  /** A node has the label, list and children that the shape says. */
  ghost predicate Shows(node: Node, info: Info, at: map<string, Node>)
    reads node
  {
    && node.prefix == info.prefix && node.counts == info.counts && |node.children| == |info.kids|
    && forall i :: 0 <= i < |info.kids| ==> info.kids[i] in at && node.children[i] == at[info.kids[i]]
  }

  /** Node::Split (lines 256-263): the node keeps the front of its label and one child, which
      takes the rest. */
  method CutNode(node: Node, iDiff: nat, ghost info: Info, ghost at: map<string, Node>) returns (splitNode: Node)
    requires Shows(node, info, at) && iDiff <= |info.prefix|
    modifies node
    ensures fresh(splitNode) && Shows(splitNode, info.(prefix := info.prefix[iDiff..]), at)
    ensures node.prefix == info.prefix[..iDiff] && node.counts == [] && node.children == [splitNode]
  {
    var retain, suffix := node.prefix[..iDiff], node.prefix[iDiff..];
    node.prefix := retain;
    splitNode := new Node(suffix);
    splitNode.counts, node.counts := node.counts, splitNode.counts;
    splitNode.children, node.children := node.children, splitNode.children;
    node.children := node.children + [splitNode];
  }

  /** Every node of the cut tree shows what the cut shape says. */
  lemma CutShows(node: Node, splitNode: Node, shape: Shape, at: map<string, Node>, at1: map<string, Node>, u: string,
                 i: nat, d: nat, w: string)
    requires Cuttable(shape, u, i, d) && at.Keys == shape.Keys && node == at[shape[u].kids[i]] && node != at[u]
    requires CutAt(shape, u, i, d) !in shape && at1 == at[CutAt(shape, u, i, d) := node][shape[u].kids[i] := splitNode]
    requires forall x :: x in shape && x != shape[u].kids[i] ==> Shows(at[x], shape[x], at)
    requires var k := shape[u].kids[i];
      && Shows(splitNode, shape[k].(prefix := shape[k].prefix[d..]), at)
      && node.prefix == shape[k].prefix[..d] && node.counts == [] && node.children == [splitNode]
    requires w in at1
    ensures w in Cut(shape, u, i, d) && Shows(at1[w], Cut(shape, u, i, d)[w], at1)
  {
    hide Wf, Cut;
    var k, v, shape1 := shape[u].kids[i], CutAt(shape, u, i, d), Cut(shape, u, i, d);
    CutNodes(shape, u, i, d);
    if w in shape {
      forall j | 0 <= j < |shape[w].kids| && !(w == u && i == j) ensures shape[w].kids[j] != k {
        if shape[w].kids[j] == k {
          SameKid(shape, u, i, w, j);
        }
      }
    }
  }

  /** A new child of `curr` with one occurrence (lines 332-334). */
  method Attach(curr: Node, sub: string, count: nat, ghost info: Info, ghost at: map<string, Node>) returns (next: Node)
    requires Shows(curr, info, at)
    modifies curr
    ensures fresh(next) && next.prefix == sub && next.counts == [count] && next.children == []
    ensures curr.prefix == info.prefix && curr.counts == info.counts && |curr.children| == |info.kids| + 1
    ensures forall i :: 0 <= i < |info.kids| ==> info.kids[i] in at && curr.children[i] == at[info.kids[i]]
    ensures curr.children[|info.kids|] == next
  {
    next := new Node(sub);
    next.counts := next.counts + [count];
    curr.children := curr.children + [next];
  }

  /** prefix.size(). */
  method Length(node: Node, ghost info: Info, ghost at: map<string, Node>) returns (n: nat)
    requires Shows(node, info, at)
    ensures n == |info.prefix| && node.prefix == info.prefix
  {
    n := |node.prefix|;
  }

  method Append(node: Node, count: nat, ghost info: Info, ghost at: map<string, Node>)
    requires Shows(node, info, at)
    modifies node
    ensures Shows(node, info.(counts := info.counts + [count]), at)
  {
    node.counts := node.counts + [count];
  }

  /** Every node of the tree with a new leaf shows what the new shape says. */
  lemma LeafShows(curr: Node, next: Node, shape: Shape, at: map<string, Node>, at1: map<string, Node>, u: string,
                  sub: string, count: nat, w: string)
    requires u in shape && sub != "" && u + sub !in shape && at.Keys == shape.Keys && at1 == at[u + sub := next]
    requires at[u] == curr && forall x :: x in shape && x != u ==> Shows(at[x], shape[x], at)
    requires next.prefix == sub && next.counts == [count] && next.children == []
    requires curr.prefix == shape[u].prefix && curr.counts == shape[u].counts && |curr.children| == |shape[u].kids| + 1
    requires forall i :: 0 <= i < |shape[u].kids| ==> shape[u].kids[i] in at && curr.children[i] == at[shape[u].kids[i]]
    requires curr.children[|shape[u].kids|] == next && w in at1
    ensures w in WithLeaf(shape, u, sub, count) && Shows(at1[w], WithLeaf(shape, u, sub, count)[w], at1)
  {
  }

  class Dictionary {
    var wordList: Node
    var isLoadable: bool
    /** The node at each path, and what the tree looks like. */
    ghost var at: map<string, Node>
    ghost var shape: Shape

    ghost function Nodes(): set<Node>
      reads this
    {
      set w | w in at :: at[w]
    }

    ghost predicate Valid()
      reads this, Nodes()
    {
      && Wf(shape) && at.Keys == shape.Keys && at[""] == wordList
      && (forall u, w :: u in at && w in at && u != w ==> at[u] != at[w])
      && (forall w :: w in at ==> Shows(at[w], shape[w], at))
    }

    ghost predicate Shown(w: string)
      requires w in at && w in shape
      reads this, Nodes()
    {
      Shows(at[w], shape[w], at)
    }

    constructor ()
      ensures Ready() && shape == Empty() && isLoadable && fresh(Nodes())
    {
      wordList := new Node("");
      isLoadable := true;
      new;
      at, shape := map["" := wordList], Empty();
      EmptyWf();
    }

    /** The child of `node` whose label begins with nextCh. */
    method Next(node: Node, nextCh: char, ghost u: string) returns (next: Node?, ghost j: nat)
      requires Valid() && u in shape && node == at[u]
      ensures j == FindKid(shape[u].kids, u, nextCh)
      ensures next == if j < |shape[u].kids| && shape[u].kids[j] in at then at[shape[u].kids[j]] else null
      ensures j < |shape[u].kids| ==> shape[u].kids[j] in at && IsKid(shape, u, shape[u].kids[j])
    {
      hide Wf, Cut;
      assert Shown(u);
      AllKids(shape, u);
      var i := 0;
      while i < |node.children|
        invariant i <= |shape[u].kids| && forall m :: 0 <= m < i ==> Head(u, shape[u].kids[m]) != nextCh
      {
        var curr := node.children[i];
        assert Shown(shape[u].kids[i]) && IsKid(shape, u, shape[u].kids[i]);
        if curr.prefix[0] == nextCh {
          FindIs(shape[u].kids, u, nextCh, i);
          return curr, i;
        }
        i := i + 1;
      }
      FindIs(shape[u].kids, u, nextCh, i);
      return null, i;
    }

    /** The n-th occurrence of a word, 0 when there is none; n counts from 1. */
    method Search(word: string, occurrence: nat) returns (count: nat)
      requires Valid() && occurrence >= 1
      ensures var counts := CountsOf(Meaning(shape), word);
              count == if occurrence <= |counts| then counts[occurrence - 1] else 0
    {
      hide Wf, Cut;
      var curr := wordList;
      ghost var path := "";
      var i := 0;
      RootIs(shape);
      while i < |word|
        invariant i <= |word| && path == word[..i] && path in shape && curr == at[path]
      {
        var sub := word[i..];
        var next, j := Next(curr, sub[0], path);
        WayOn(shape, path, j, word);
        if next == null {
          return 0;
        }
        ghost var k := shape[path].kids[j];
        assert Shown(k);
        var preSize := |next.prefix|;
        if preSize == |sub| && next.prefix == sub {
          i := |word|;
        } else if preSize < |sub| && next.prefix == sub[..preSize] {
          i := i + preSize;
        } else {
          PrefixOf(path, next.prefix, word, i);
          assert word !in shape;
          return 0;
        }
        curr, path := next, k;
      }
      assert Shown(path) && path == word;
      if occurrence <= |curr.counts| {
        return curr.counts[occurrence - 1];
      }
      return 0;
    }

    /** A child on the way to a word shows its label next in the word. */
    lemma PrefixOf(path: string, prefix: string, word: string, i: nat)
      requires i < |word| && path == word[..i]
      ensures path + prefix <= word ==> |prefix| <= |word[i..]| && prefix == word[i..][..|prefix|]
    {
    }

    /** Cuts the edge to `node`, child i of the node at u, at index iDiff. */
    method Split(node: Node, iDiff: nat, ghost u: string, ghost i: nat)
      requires Valid() && Cuttable(shape, u, i, iDiff) && node == at[shape[u].kids[i]]
      modifies this`at, this`shape, node
      ensures Valid() && shape == Cut(old(shape), u, i, iDiff) && fresh(Nodes() - old(Nodes()))
      ensures Meaning(shape) == old(Meaning(shape))
      ensures CutAt(old(shape), u, i, iDiff) in shape && at[CutAt(old(shape), u, i, iDiff)] == node
      ensures wordList == old(wordList)
    {
      hide Wf, Cut, Shows, KidsAt;
      ghost var at0, shape0, k, v := at, shape, shape[u].kids[i], CutAt(shape, u, i, iDiff);
      CutIsNew(shape, u, i, iDiff);
      CutNodes(shape, u, i, iDiff);
      CutKeeps(shape, u, i, iDiff);
      RootIs(shape);
      var splitNode := CutNode(node, iDiff, shape[k], at);
      at := at[v := node][k := splitNode];
      shape := Cut(shape, u, i, iDiff);
      forall w | w in at ensures Shows(at[w], shape[w], at) {
        CutShows(node, splitNode, shape0, at0, at, u, i, iDiff, w);
      }
    }

    /** A new leaf below `curr`, the node at u. */
    method AddLeaf(curr: Node, sub: string, count: nat, ghost u: string)
      requires Valid() && u in shape && curr == at[u] && sub != "" && NoKid(shape, u, sub[0])
      modifies this`at, this`shape, curr
      ensures Valid() && shape == WithLeaf(old(shape), u, sub, count) && fresh(Nodes() - old(Nodes()))
      ensures Meaning(shape) == old(Meaning(shape))[u + sub := old(CountsOf(Meaning(shape), u + sub)) + [count]]
    {
      hide Wf, Shows, NoKid, Meaning;
      ghost var at0, shape0 := at, shape;
      LeafKeeps(shape, u, sub, count);
      RootIs(shape);
      var next := Attach(curr, sub, count, shape[u], at);
      at := at[u + sub := next];
      shape := WithLeaf(shape, u, sub, count);
      forall w | w in at ensures Shows(at[w], shape[w], at) {
        LeafShows(curr, next, shape0, at0, at, u, sub, count, w);
      }
    }

    /** One more occurrence at `node`, the node at w. */
    method AddCount(node: Node, count: nat, ghost w: string)
      requires Valid() && w in shape && w != "" && node == at[w]
      modifies this`shape, node
      ensures Valid() && shape == WithCount(old(shape), w, count) && at == old(at)
      ensures Meaning(shape) == old(Meaning(shape))[w := old(CountsOf(Meaning(shape), w)) + [count]]
    {
      hide Wf, Shows, Meaning;
      CountKeeps(shape, w, count);
      assert Shown(w);
      Append(node, count, shape[w], at);
      shape := WithCount(shape, w, count);
    }

    /** The rest of the word ends on the edge to child j or at its end (lines 349-366). */
    method EndOnEdge(next: Node, sub: string, count: nat, ghost u: string, ghost j: nat)
      requires Valid() && u in shape && sub != "" && j < |shape[u].kids| && shape[u].kids[j] in shape
      requires next == at[shape[u].kids[j]]
      requires sub <= shape[shape[u].kids[j]].prefix
      modifies this`at, this`shape, next
      ensures Valid() && fresh(Nodes() - old(Nodes())) && wordList == old(wordList)
      ensures shape == old(
        if |sub| < |shape[shape[u].kids[j]].prefix| then
          RootIs(shape);
          CutIsFine(shape, u, j, |sub|);
          WithCount(Cut(shape, u, j, |sub|), CutAt(shape, u, j, |sub|), count)
        else
          WithCount(shape, shape[u].kids[j], count))
    {
      hide Wf, Shows, Cut, KidsAt, Meaning;
      ghost var k := shape[u].kids[j];
      assert Shown(k);
      KidOf(shape, u, j);
      var preSize := Length(next, shape[k], at);
      if |sub| < preSize {
        ghost var v := CutAt(shape, u, j, |sub|);
        assert v == u + sub;
        Split(next, |sub|, u, j);
        AddCount(next, count, v);
      } else {
        assert sub == shape[k].prefix && k == u + sub;
        AddCount(next, count, k);
      }
    }

    /** Where a split puts its new node. */
    lemma SplitAway(shape: Shape, u: string, j: nat, d: nat, sub: string)
      requires Cuttable(shape, u, j, d) && sub != "" && j == FindKid(shape[u].kids, u, sub[0])
      requires d == DiffIndex(shape[shape[u].kids[j]].prefix, sub, 1)
      ensures d < |sub| && CutAt(shape, u, j, d) == u + sub[..d] && CutAt(shape, u, j, d) !in shape
      ensures forall w :: w in Cut(shape, u, j, d) <==> w in shape || w == CutAt(shape, u, j, d)
    {
      hide Wf, Cut;
      var p := shape[shape[u].kids[j]].prefix;
      CutIsNew(shape, u, j, d);
      CutNodes(shape, u, j, d);
      assert p[..d] == sub[..d] by {
        assert p[0] == Head(u, shape[u].kids[j]) == sub[0];
      }
    }

    /** Splits the edge to child j where the word leaves it (lines 368-373). */
    method LeaveEdge(node: Node, iDiff: nat, ghost sub: string, ghost u: string, ghost j: nat) returns (ghost v: string)
      requires Valid() && Cuttable(shape, u, j, iDiff) && sub != "" && j == FindKid(shape[u].kids, u, sub[0])
      requires node == at[shape[u].kids[j]] && iDiff == DiffIndex(shape[shape[u].kids[j]].prefix, sub, 1)
      modifies this`at, this`shape, node
      ensures Valid() && fresh(Nodes() - old(Nodes())) && wordList == old(wordList)
      ensures shape == Cut(old(shape), u, j, iDiff) && v == CutAt(old(shape), u, j, iDiff) == u + sub[..iDiff]
      ensures v !in old(shape) && v in shape && at[v] == node && iDiff < |sub|
      ensures forall w :: w in shape <==> w in old(shape) || w == v
    {
      hide Wf, Cut, Shows, KidsAt, Meaning, FindKid, DiffIndex;
      v := CutAt(shape, u, j, iDiff);
      SplitAway(shape, u, j, iDiff, sub);
      Split(node, iDiff, u, j);
    }

    /** How the walk goes on: down an edge whose label comes next in the word; or, past a
        split at the end of the part they share, by one character only. */
    ghost predicate GoesOn(shape0: Shape, shape1: Shape, u: string, v: string, sub: string, skip: nat) {
      && 1 <= skip < |sub| && v in shape1
      && (v in shape0 ==> shape1 == shape0 && v == u + sub[..skip])
      && (v !in shape0 ==>
            && skip == 1 && |u| < |v| < |u| + |sub| && v == u + sub[..|v| - |u|]
            && forall w :: w in shape1 <==> w in shape0 || w == v)
    }

    /** One turn of the loop (lines 326-376): either the occurrence is recorded, or `skip`
        characters of `sub` are behind and the walk goes on from `next` to the same tree. */
    method Step(curr: Node, sub: string, count: nat, ghost path: string)
      returns (done: bool, next: Node, skip: nat, ghost path1: string)
      requires Valid() && path in shape && curr == at[path] && sub != ""
      modifies this`at, this`shape, Nodes()
      ensures Valid() && fresh(Nodes() - old(Nodes())) && wordList == old(wordList)
      ensures done ==> shape == old(Grown(shape, path, sub, count))
      ensures !done ==> GoesOn(old(shape), shape, path, path1, sub, skip) && next == at[path1]
      ensures !done ==> Grown(shape, path1, sub[skip..], count) == old(Grown(shape, path, sub, count))
    {
      hide Wf, Shows, Cut, KidsAt, Meaning, Grown, FindKid;
      done, next, skip, path1 := true, curr, 0, path;
      var found, j := Next(curr, sub[0], path);
      if found == null {
        GrownStep(shape, path, j, sub, count);
        AddLeaf(curr, sub, count, path);
      } else {
        done, next, skip, path1 := Follow(found, sub, count, path, j);
      }
    }

    /** The turn on the edge to child j (lines 339-376). */
    method Follow(found: Node, sub: string, count: nat, ghost path: string, ghost j: nat)
      returns (done: bool, next: Node, skip: nat, ghost path1: string)
      requires Valid() && path in shape && sub != ""
      requires j == FindKid(shape[path].kids, path, sub[0]) < |shape[path].kids|
      requires shape[path].kids[j] in at && found == at[shape[path].kids[j]]
      modifies this`at, this`shape, Nodes()
      ensures Valid() && fresh(Nodes() - old(Nodes())) && wordList == old(wordList)
      ensures done ==> shape == old(Grown(shape, path, sub, count))
      ensures !done ==> GoesOn(old(shape), shape, path, path1, sub, skip) && next == at[path1]
      ensures !done ==> Grown(shape, path1, sub[skip..], count) == old(Grown(shape, path, sub, count))
    {
      hide Wf, Shows, Cut, KidsAt, Meaning, Grown, FindKid;
      GrownStep(shape, path, j, sub, count);
      done, next, skip, path1 := true, found, 0, path;
      ghost var k := shape[path].kids[j];
      assert Shown(k);
      var preSize := Length(next, shape[k], at);
      var iDiff := Diff(next.prefix, sub);
      if iDiff == -1 {
        if |sub| > preSize {
          done, skip, path1 := false, preSize, k;
        } else {
          assert sub <= shape[k].prefix;
          EndOnEdge(next, sub, count, path, j);
        }
      } else {
        path1 := LeaveEdge(next, iDiff, sub, path, j);
        done, skip := false, 1;
      }
    }

    lemma WentOn(shape0: Shape, u: string, v: string, sub: string, skip: nat)
      requires GoesOn(shape0, shape, u, v, sub, skip)
      ensures 1 <= skip < |sub| && v in shape
    {
    }

    /** Adds one occurrence. Exactly one word's list grows: the stored word's, which is the
        inserted one if and only if the first edge left in the middle, if any, is left
        right behind its first character. */
    method Insert(word: string, count: nat)
      requires Valid()
      modifies this`at, this`shape, Nodes()
      ensures Valid() && fresh(Nodes() - old(Nodes())) && wordList == old(wordList)
      ensures word == "" ==> shape == old(shape)
      ensures word != "" ==>
        && shape == Grown(old(shape), "", word, count)
        && var stored := Stored(old(shape), "", word);
           && Meaning(shape) == old(Meaning(shape))[stored := CountsOf(old(Meaning(shape)), stored) + [count]]
           && if FirstSplit(old(shape), "", word) <= 1 then stored == word else |stored| > |word|
    {
      hide Wf, Shows, Meaning, Stored, FirstSplit, Grown, GoesOn;
      RootIs(shape);
      if word == "" {
        return;
      }
      assert word[0..] == word && "" + word == word;
      var curr := wordList;
      var i := 0;
      ghost var path := "";
      while i < |word|
        invariant Valid() && fresh(Nodes() - old(Nodes())) && wordList == old(wordList)
        invariant i < |word| && path in shape && curr == at[path]
        invariant Grown(shape, path, word[i..], count) == Grown(old(shape), "", word, count)
        decreases |word| - i
      {
        ghost var shape0 := shape;
        var done, next, skip, path1 := Step(curr, word[i..], count, path);
        if done {
          break;
        }
        WentOn(shape0, path, path1, word[i..], skip);
        assert word[i..][skip..] == word[i + skip..];
        i := i + skip;
        curr, path := next, path1;
      }
      StoredIsWord(old(shape), "", word);
      GrownMeans(old(shape), "", word, count);
    }

    /** Dictionary::New. */
    method New()
      modifies this
      ensures Ready() && shape == Empty() && isLoadable && fresh(Nodes())
    {
      EmptyWf();
      wordList := new Node("");
      at, shape := map["" := wordList], Empty();
      isLoadable := true;
    }

    /** A loadable dictionary is empty. */
    ghost predicate Ready()
      reads this, Nodes()
    {
      Valid() && (isLoadable ==> shape == Empty())
    }

    /** Inserts the words of one line, counting on (lines 482-486). */
    method InsertAll(buffer: seq<string>, totalCount: nat, ghost words: seq<string>) returns (total: nat)
      requires Valid() && NonEmpty(words) && NonEmpty(buffer) && totalCount == |words| && shape == TreeOf(words)
      modifies this`at, this`shape, Nodes()
      ensures Valid() && fresh(Nodes() - old(Nodes())) && total == totalCount + |buffer|
      ensures shape == TreeOf(words + buffer)
    {
      hide Wf, Shows, Meaning, Stored, FirstSplit, Grown, TreeOf;
      total := totalCount;
      var i := 0;
      assert words + buffer[..0] == words;
      while i < |buffer|
        invariant i <= |buffer| && Valid() && fresh(Nodes() - old(Nodes()))
        invariant total == totalCount + i && NonEmpty(words + buffer[..i]) && shape == TreeOf(words + buffer[..i])
      {
        total := total + 1;
        Insert(buffer[i], total);
        TreeGrows(words + buffer[..i], buffer[i]);
        assert words + buffer[..i] + [buffer[i]] == words + buffer[..i + 1];
        i := i + 1;
      }
      assert buffer[..i] == buffer;
    }

    /** Loads a text once: the tree becomes the text's. For every word it then lists exactly
        the positions at which that word was stored, one for each word of the text. */
    method Load(isOpen: bool, lines: seq<string>)
      requires Ready()
      modifies this`at, this`shape, this`isLoadable, Nodes()
      ensures Ready() && fresh(Nodes() - old(Nodes()))
      ensures !isOpen || !old(isLoadable) ==> shape == old(shape) && isLoadable == old(isLoadable)
      ensures isOpen && old(isLoadable) ==> !isLoadable && shape == TreeOf(AllWords(lines))
      ensures isOpen && old(isLoadable) ==>
        forall w :: CountsOf(Meaning(shape), w) == Positions(LogOf(AllWords(lines)), w)
    {
      hide Wf, Shows, Meaning, Positions, TreeOf, LogOf, AllWords, Words;
      if isLoadable && isOpen {
        NoWords(lines);
        var total, n := 0, 0;
        while n < |lines|
          invariant n <= |lines| && Valid() && fresh(Nodes() - old(Nodes()))
          invariant total == |AllWords(lines[..n])| && shape == TreeOf(AllWords(lines[..n]))
        {
          var buffer, runs := Parse(lines[n], []);
          MoreWords(lines, n);
          assert buffer == Words(lines[n]);
          total := InsertAll(buffer, total, AllWords(lines[..n]));
          n := n + 1;
        }
        assert lines[..n] == lines;
        isLoadable := false;
        forall w ensures CountsOf(Meaning(shape), w) == Positions(LogOf(AllWords(lines)), w) {
          TreeMeans(AllWords(lines), w);
        }
      }
    }

    /** Dictionary::Locate, for positive n. */
    method Locate(word: string, occurrence: nat) returns (count: nat)
      requires Valid() && occurrence >= 1
      ensures var counts := CountsOf(Meaning(shape), word);
              count == if occurrence <= |counts| then counts[occurrence - 1] else 0
    {
      count := Search(word, occurrence);
    }
  }

  /** The words of a text, in order. */
  ghost function AllWords(lines: seq<string>): (r: seq<string>)
    ensures NonEmpty(r)
  {
    if lines == [] then []
    else
      WordsNonEmpty(lines[|lines| - 1]);
      AllWords(lines[..|lines| - 1]) + Words(lines[|lines| - 1])
  }

  lemma WordsNonEmpty(line: string)
    ensures NonEmpty(Words(line))
  {
    if exists runs :: RunsUpTo(line, runs, |line|) {
      var runs :| RunsUpTo(line, runs, |line|);
      WordsAre(line, runs);
    }
  }

  lemma NoWords(lines: seq<string>)
    ensures AllWords(lines[..0]) == [] && TreeOf(AllWords(lines[..0])) == Empty()
  {
  }

  lemma MoreWords(lines: seq<string>, n: nat)
    requires n < |lines|
    ensures AllWords(lines[..n + 1]) == AllWords(lines[..n]) + Words(lines[n])
  {
    assert lines[..n + 1][..n] == lines[..n];
  }

  /** A run in which a word that was inserted is not found. */
  method InsertedWordNotFound() returns (d: Dictionary, count: nat)
    ensures d.Valid() && d.shape == TreeOf(["song", "sofa"]) && count == 0
  {
    hide Wf, Meaning, TreeOf, Grown, Positions;
    d := new Dictionary();
    NoWords([]);
    var total := d.InsertAll(["song", "sofa"], 0, []);
    assert [] + ["song", "sofa"] == ["song", "sofa"];
    SofaNotFound();
    count := d.Locate("sofa", 1);
  }
}
