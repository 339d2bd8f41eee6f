/** What loading a text into the radix tree of p1/wl.cpp gives, as functions of its words:
    the tree, the word each insertion really stores, and when look-ups are right. */
module Concordance {
  import opened RadixShape

  /** The tree after inserting `rest` below node u (p1/wl.cpp:320-378). */
  ghost function Grown(shape: Shape, u: string, rest: string, count: nat): Shape
    requires Wf(shape) && u in shape && rest != ""
    decreases |rest|
  {
    var i := FindKid(shape[u].kids, u, rest[0]);
    if i == |shape[u].kids| then WithLeaf(shape, u, rest, count)
    else
      EdgeIs(shape, u, i, rest);
      var k := shape[u].kids[i];
      var p := shape[k].prefix;
      var d := DiffIndex(p, rest, 1);
      if d != -1 then Grown(Cut(shape, u, i, d), CutAt(shape, u, i, d), rest[1..], count)
      else if |rest| > |p| then Grown(shape, k, rest[|p|..], count)
      else if |rest| < |p| then WithCount(Cut(shape, u, i, |rest|), CutAt(shape, u, i, |rest|), count)
      else WithCount(shape, k, count)
  }

  /** The edge an insertion meets, and the tree once it is cut where the insertion leaves it. */
  lemma EdgeIs(shape: Shape, u: string, i: nat, rest: string)
    requires Wf(shape) && u in shape && rest != "" && i == FindKid(shape[u].kids, u, rest[0]) < |shape[u].kids|
    ensures IsKid(shape, u, shape[u].kids[i])
    ensures var p := shape[shape[u].kids[i]].prefix;
            var d := DiffIndex(p, rest, 1);
            && p[0] == rest[0] && p != ""
            && (d != -1 ==> 0 < d < |p| && |rest| > 1 && CutFine(shape, u, i, d))
            && (d == -1 && |rest| < |p| ==> rest == p[..|rest|] && CutFine(shape, u, i, |rest|))
            && (d == -1 && |rest| == |p| ==> rest == p)
            && (d == -1 && |rest| > |p| ==> rest[..|p|] == p)
  {
    hide Wf, Cut, CutAt;
    KidOf(shape, u, i);
    var p := shape[shape[u].kids[i]].prefix;
    var d := DiffIndex(p, rest, 1);
    if d != -1 {
      CutIsFine(shape, u, i, d);
    } else if |rest| < |p| {
      CutIsFine(shape, u, i, |rest|);
    }
  }

  /** A cut is possible and keeps the tree well formed. */
  ghost predicate CutFine(shape: Shape, u: string, i: nat, d: nat) {
    Cuttable(shape, u, i, d) && Wf(Cut(shape, u, i, d)) && CutAt(shape, u, i, d) in Cut(shape, u, i, d)
  }

  lemma CutIsFine(shape: Shape, u: string, i: nat, d: nat)
    requires Cuttable(shape, u, i, d)
    ensures CutFine(shape, u, i, d)
  {
    hide Wf, Cut;
    CutKeeps(shape, u, i, d);
    CutNodes(shape, u, i, d);
  }

  /** One step of the insertion, unfolded. */
  lemma GrownStep(shape: Shape, u: string, i: nat, rest: string, count: nat)
    requires Wf(shape) && u in shape && rest != "" && i == FindKid(shape[u].kids, u, rest[0])
    ensures i == |shape[u].kids| ==>
      Grown(shape, u, rest, count) == WithLeaf(shape, u, rest, count) && NoKid(shape, u, rest[0])
    ensures i < |shape[u].kids| ==>
      var k := shape[u].kids[i];
      && IsKid(shape, u, k)
      && var p, tree := shape[k].prefix, Grown(shape, u, rest, count);
         var d, n := DiffIndex(p, rest, 1), |rest|;
         if d != -1 then
           && n > 1 && CutFine(shape, u, i, d)
           && tree == Grown(Cut(shape, u, i, d), CutAt(shape, u, i, d), rest[1..], count)
         else if n > |p| then
           rest[..|p|] == p && tree == Grown(shape, k, rest[|p|..], count)
         else if n < |p| then
           && rest == p[..n] && CutFine(shape, u, i, n)
           && tree == WithCount(Cut(shape, u, i, n), CutAt(shape, u, i, n), count)
         else
           rest == p && tree == WithCount(shape, k, count)
  {
    hide Wf, Cut, CutAt, CutFine, DiffIndex;
    if i < |shape[u].kids| {
      EdgeIs(shape, u, i, rest);
    }
  }

  /** Exactly one word's list grows: the stored word's. */
  lemma {:induction false} GrownMeans(shape: Shape, u: string, rest: string, count: nat)
    requires Wf(shape) && u in shape && rest != ""
    ensures Wf(Grown(shape, u, rest, count))
    ensures Meaning(Grown(shape, u, rest, count)) == Noted(Meaning(shape), Stored(shape, u, rest), count)
    decreases |rest|
  {
    hide Wf, Cut, Stored, StoredOn, FirstSplit, Grown, FindKid, Meaning, Noted, WithLeaf, WithCount, DiffIndex;
    var i := FindKid(shape[u].kids, u, rest[0]);
    GrownStep(shape, u, i, rest, count);
    StoredStep(shape, u, i, rest);
    if i == |shape[u].kids| {
      NotedLeaf(shape, u, rest, count);
    } else {
      var k := shape[u].kids[i];
      var p := shape[k].prefix;
      var d := DiffIndex(p, rest, 1);
      StoredOnStep(shape, u, p, k, rest);
      if d != -1 {
        CutKeeps(shape, u, i, d);
        CutStores(shape, u, i, d, rest);
        GrownMeans(Cut(shape, u, i, d), CutAt(shape, u, i, d), rest[1..], count);
      } else if |rest| > |p| {
        GrownMeans(shape, k, rest[|p|..], count);
      } else if |rest| < |p| {
        CutKeeps(shape, u, i, |rest|);
        NotedCount(Cut(shape, u, i, |rest|), CutAt(shape, u, i, |rest|), count);
      } else {
        NotedCount(shape, k, count);
      }
    }
  }

  /** One more count in one word's list. */
  ghost function Noted(m: map<string, seq<nat>>, w: string, count: nat): map<string, seq<nat>> {
    m[w := CountsOf(m, w) + [count]]
  }

  lemma NotedLeaf(shape: Shape, u: string, rest: string, count: nat)
    requires Wf(shape) && u in shape && rest != "" && NoKid(shape, u, rest[0])
    ensures Wf(WithLeaf(shape, u, rest, count))
    ensures Meaning(WithLeaf(shape, u, rest, count)) == Noted(Meaning(shape), u + rest, count)
  {
    LeafKeeps(shape, u, rest, count);
  }

  lemma NotedCount(shape: Shape, w: string, count: nat)
    requires Wf(shape) && w in shape && w != ""
    ensures Wf(WithCount(shape, w, count)) && Meaning(WithCount(shape, w, count)) == Noted(Meaning(shape), w, count)
  {
    CountKeeps(shape, w, count);
  }

  ghost predicate NonEmpty(words: seq<string>) {
    forall k :: 0 <= k < |words| ==> words[k] != ""
  }

  /** The tree after the words of a text, each counted by its position from 1. */
  ghost function TreeOf(words: seq<string>): (r: Shape)
    requires NonEmpty(words)
    ensures Wf(r)
  {
    if words == [] then
      EmptyWf();
      Empty()
    else
      var n := |words| - 1;
      var before := TreeOf(words[..n]);
      RootIs(before);
      GrownMeans(before, "", words[n], n + 1);
      Grown(before, "", words[n], n + 1)
  }

  lemma TreeGrows(words: seq<string>, word: string)
    requires NonEmpty(words) && word != ""
    ensures "" in TreeOf(words) && NonEmpty(words + [word])
    ensures TreeOf(words + [word]) == Grown(TreeOf(words), "", word, |words| + 1)
  {
    hide Wf, Grown;
    RootIs(TreeOf(words));
    assert (words + [word])[..|words|] == words;
  }

  /** The word that the insertion of word k of a text stores. */
  ghost function StoredAt(words: seq<string>, k: nat): string
    requires NonEmpty(words) && k < |words|
  {
    RootIs(TreeOf(words[..k]));
    Stored(TreeOf(words[..k]), "", words[k])
  }

  ghost function LogOf(words: seq<string>): (r: seq<string>)
    requires NonEmpty(words)
    ensures |r| == |words| && forall k :: 0 <= k < |words| ==> r[k] == StoredAt(words, k)
  {
    seq(|words|, k requires 0 <= k < |words| => StoredAt(words, k))
  }

  lemma LogLength(words: seq<string>)
    requires NonEmpty(words)
    ensures |LogOf(words)| == |words|
  {
  }

  lemma LogGrows(words: seq<string>, word: string)
    requires NonEmpty(words) && word != ""
    ensures NonEmpty(words + [word]) && LogOf(words + [word]) == LogOf(words) + [StoredAt(words + [word], |words|)]
  {
    hide TreeOf, Stored, Wf;
    var longer := words + [word];
    forall k | 0 <= k < |words| ensures StoredAt(longer, k) == StoredAt(words, k) {
      assert longer[..k] == words[..k];
    }
  }

  /** The positions of w in a list of words, counted from 1. */
  ghost function Positions(words: seq<string>, w: string): seq<nat> {
    if words == [] then []
    else Positions(words[..|words| - 1], w) + if words[|words| - 1] == w then [|words|] else []
  }

  /** Positions are strictly increasing and are exactly those of the word, so all words
      together have every position once. */
  lemma {:induction false} PositionsExact(words: seq<string>, w: string)
    ensures forall j :: j in Positions(words, w) <==> 1 <= j <= |words| && words[j - 1] == w
    ensures forall x, y :: 0 <= x < y < |Positions(words, w)| ==> Positions(words, w)[x] < Positions(words, w)[y]
  {
    if words != [] {
      var n := |words| - 1;
      PositionsExact(words[..n], w);
      var before := Positions(words[..n], w);
      forall j ensures j in before <==> 1 <= j <= n && words[j - 1] == w {
        assert 1 <= j <= n ==> words[..n][j - 1] == words[j - 1];
      }
      forall x | 0 <= x < |before| ensures before[x] <= n {
        assert before[x] in before;
      }
    }
  }

  lemma PositionsGrow(words: seq<string>, word: string, w: string)
    ensures Positions(words + [word], w) == Positions(words, w) + if word == w then [|words| + 1] else []
  {
  }

  /** The tree of a text lists, for every word, the positions at which it was stored. */
  lemma {:induction false} TreeMeans(words: seq<string>, w: string)
    requires NonEmpty(words)
    ensures CountsOf(Meaning(TreeOf(words)), w) == Positions(LogOf(words), w)
  {
    hide Wf, Grown, Stored, Meaning;
    if words == [] {
      EmptyWf();
    } else {
      var n := |words| - 1;
      assert words == words[..n] + [words[n]];
      TreeMeans(words[..n], w);
      MeansGrow(words[..n], words[n], w);
    }
  }

  lemma MeansGrow(words: seq<string>, word: string, w: string)
    requires NonEmpty(words) && word != "" && CountsOf(Meaning(TreeOf(words)), w) == Positions(LogOf(words), w)
    ensures NonEmpty(words + [word])
    ensures CountsOf(Meaning(TreeOf(words + [word])), w) == Positions(LogOf(words + [word]), w)
  {
    hide Wf, Grown, Stored, Meaning, TreeOf, LogOf, Positions, StoredAt;
    var stored := StoredAt(words + [word], |words|);
    TreeGrows(words, word);
    LogGrows(words, word);
    StoredThere(words, word);
    GrownMeans(TreeOf(words), "", word, |words| + 1);
    LogLength(words);
    PositionsGrow(LogOf(words), stored, w);
  }

  lemma StoredThere(words: seq<string>, word: string)
    requires NonEmpty(words) && word != ""
    ensures "" in TreeOf(words) && NonEmpty(words + [word])
    ensures StoredAt(words + [word], |words|) == Stored(TreeOf(words), "", word)
  {
    hide Wf, Stored, TreeOf;
    RootIs(TreeOf(words));
    assert (words + [word])[..|words|] == words;
  }

  /** No insertion first leaves an edge past the edge's second character. */
  ghost predicate NoLateSplit(words: seq<string>)
    requires NonEmpty(words)
  {
    forall k :: 0 <= k < |words| ==> SplitAt(words, k) <= 1
  }

  ghost function SplitAt(words: seq<string>, k: nat): nat
    requires NonEmpty(words) && k < |words|
  {
    RootIs(TreeOf(words[..k]));
    FirstSplit(TreeOf(words[..k]), "", words[k])
  }

  /** Every word is stored as itself exactly when no split comes late. */
  lemma LogExact(words: seq<string>)
    requires NonEmpty(words)
    ensures LogOf(words) == words <==> NoLateSplit(words)
  {
    hide Wf, Stored, FirstSplit, TreeOf;
    forall k | 0 <= k < |words| ensures StoredAt(words, k) == words[k] <==> SplitAt(words, k) <= 1 {
      RootIs(TreeOf(words[..k]));
      StoredIsWord(TreeOf(words[..k]), "", words[k]);
      assert "" + words[k] == words[k];
    }
    if LogOf(words) == words {
      forall k | 0 <= k < |words| ensures SplitAt(words, k) <= 1 {
        assert LogOf(words)[k] == words[k];
      }
    }
  }

  /** Every word's list is the positions it has in the text. */
  ghost predicate LookupsRight(words: seq<string>)
    requires NonEmpty(words)
  {
    forall w :: CountsOf(Meaning(TreeOf(words)), w) == Positions(words, w)
  }

  lemma LookupRight(words: seq<string>, w: string)
    requires NonEmpty(words) && LookupsRight(words)
    ensures CountsOf(Meaning(TreeOf(words)), w) == Positions(words, w)
  {
  }

  /** A position that is listed was stored for the word that is there. */
  lemma RightLog(words: seq<string>)
    requires NonEmpty(words) && LookupsRight(words)
    ensures LogOf(words) == words
  {
    hide Wf, Meaning, TreeOf, LogOf, Positions, CountsOf, LookupsRight;
    LogLength(words);
    forall k | 0 <= k < |words| ensures LogOf(words)[k] == words[k] {
      LookupRight(words, words[k]);
      TreeMeans(words, words[k]);
      PositionsExact(words, words[k]);
      PositionsExact(LogOf(words), words[k]);
      assert k + 1 in Positions(words, words[k]);
    }
  }

  /** Every look-up in the loaded tree is right, for every word, exactly when no split
      comes late. */
  lemma LookupsExact(words: seq<string>)
    requires NonEmpty(words)
    ensures LookupsRight(words) <==> NoLateSplit(words)
  {
    hide Wf, Meaning, TreeOf, LogOf, NoLateSplit, Positions, CountsOf;
    LogExact(words);
    if NoLateSplit(words) {
      forall w ensures CountsOf(Meaning(TreeOf(words)), w) == Positions(words, w) {
        TreeMeans(words, w);
      }
    }
    if LookupsRight(words) {
      RightLog(words);
    }
  }

  /** A text of two words whose second is not found: it was stored as "soofa". */
  lemma SofaNotFound()
    ensures LogOf(["song", "sofa"]) == ["song", "soofa"]
    ensures CountsOf(Meaning(TreeOf(["song", "sofa"])), "sofa") == [] && Positions(["song", "sofa"], "sofa") == [2]
  {
    hide Wf, Meaning, Stored;
    var words := ["song", "sofa"];
    assert words[..1] == ["song"] && words[..0] == [];
    SofaBecomesSoofa();
    EmptyWf();
    GrownStep(Empty(), "", 0, "song", 1);
    assert words[..1][..0] == [];
    assert TreeOf(words[..1]) == WithLeaf(Empty(), "", "song", 1);
    StoredStep(Empty(), "", 0, "song");
    assert "" + "song" == "song";
    assert LogOf(words) == ["song", "soofa"];
    TreeMeans(words, "sofa");
    PositionsOfTwo("song", "soofa", "sofa");
    PositionsOfTwo("song", "sofa", "sofa");
  }

  lemma PositionsOfTwo(a: string, b: string, w: string)
    ensures Positions([a, b], w) == (if a == w then [1] else []) + (if b == w then [2] else [])
  {
    assert [a, b][..1] == [a] && [a][..0] == [];
    assert Positions([a], w) == Positions([], w) + if a == w then [1] else [];
  }
}
