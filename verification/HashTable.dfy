/** The buffer pool's chained hash table (p2/src/bufHashTbl.cpp): buckets on linked
    chains, refining a finite map whatever the hash function is. */
module HashTable {
  import opened Storage

  /** A file object is known by its name. */
  type FileName = string

  type FrameId = nat

  datatype PageKey = PageKey(file: FileName, pageNo: PageId)

  class HashBucket {
    const key: PageKey
    const frameNo: FrameId
    var next: HashBucket?

    constructor (key: PageKey, frameNo: FrameId, next: HashBucket?)
      ensures this.key == key && this.frameNo == frameNo && this.next == next
    {
      this.key, this.frameNo, this.next := key, frameNo, next;
    }
  }

  /** The nodes of one chain, in order. */
  ghost predicate Linked(head: HashBucket?, nodes: seq<HashBucket>)
    reads nodes
  {
    && head == (if nodes == [] then null else nodes[0])
    && (forall i :: 0 <= i < |nodes| - 1 ==> nodes[i].next == nodes[i + 1])
    && (nodes != [] ==> nodes[|nodes| - 1].next == null)
  }

  class BufHashTbl {
    const hash: PageKey -> nat
    const ht: array<HashBucket?>
    ghost var chains: seq<seq<HashBucket>>
    ghost var bindings: map<PageKey, FrameId>
    ghost var Repr: set<object>

    /** The chain a key belongs to. */
    function Index(k: PageKey): (i: nat)
      requires ht.Length > 0
      ensures i < ht.Length
    {
      hash(k) % ht.Length
    }

    ghost predicate Valid()
      reads this, Repr
    {
      && this in Repr && ht in Repr && ht.Length == |chains| > 0
      && (forall b :: 0 <= b < |chains| ==> ChainValid(b))
      && (forall k :: k in bindings ==> exists i :: Holds(chains[Index(k)], i, k))
    }

    ghost predicate Holds(chain: seq<HashBucket>, i: int, k: PageKey) {
      0 <= i < |chain| && chain[i].key == k
    }

    /** Chain b is well linked, holds only keys that hash to b, each once. */
    ghost predicate ChainValid(b: nat)
      requires ht in Repr && ht.Length == |chains| && b < |chains|
      reads this, Repr
    {
      var chain := chains[b];
      && (forall i :: 0 <= i < |chain| ==> chain[i] in Repr)
      && Linked(ht[b], chain)
      && (forall i :: 0 <= i < |chain| ==> KeyedTo(chain[i], b))
      && (forall i, j :: 0 <= i < j < |chain| ==> chain[i].key != chain[j].key)
    }

    ghost predicate KeyedTo(node: HashBucket, b: nat)
      requires ht.Length > 0
      reads this
    {
      Index(node.key) == b && node.key in bindings && bindings[node.key] == node.frameNo
    }

    constructor (htSize: nat, hash: PageKey -> nat)
      requires htSize > 0
      ensures Valid() && fresh(Repr) && bindings == map[] && this.hash == hash && ht.Length == htSize
    {
      this.hash := hash;
      ht := new HashBucket?[htSize](_ => null);
      new;
      chains := seq(htSize, _ => []);
      bindings := map[];
      Repr := {this, ht};
    }

    method Lookup(k: PageKey) returns (found: bool, frameNo: FrameId)
      requires Valid()
      ensures found <==> k in bindings
      ensures found ==> frameNo == bindings[k]
    {
      var index := Index(k);
      var tmpBuc := ht[index];
      ghost var chain, i := chains[index], 0;
      assert ChainValid(index);
      while tmpBuc != null
        invariant i <= |chain| && tmpBuc == (if i < |chain| then chain[i] else null)
        invariant forall j :: 0 <= j < i ==> chain[j].key != k
        decreases |chain| - i
      {
        if tmpBuc.key == k {
          assert KeyedTo(chain[i], index);
          return true, tmpBuc.frameNo;
        }
        assert chain[i].next == if i + 1 < |chain| then chain[i + 1] else null;
        tmpBuc := tmpBuc.next;
        i := i + 1;
      }
      assert forall j :: !Holds(chain, j, k);
      return false, 0;
    }

    /** Adds a binding; false (HashAlreadyPresent) when the key is there. */
    method Insert(k: PageKey, frameNo: FrameId) returns (ok: bool)
      requires Valid()
      modifies Repr
      ensures Valid() && fresh(Repr - old(Repr))
      ensures ok <==> k !in old(bindings)
      ensures bindings == if ok then old(bindings)[k := frameNo] else old(bindings)
      ensures ok ==>
        var b := hash(k) % ht.Length;
        b < |chains| && chains[b] != [] && chains[b][0].key == k
    {
      hide ChainValid, Linked, KeyedTo, Holds;
      var found, _ := Lookup(k);
      if found {
        return false;
      }
      var index := Index(k);
      ghost var was := chains[index];
      assert ChainValid(index);
      label Before:
      var tmpBuc := new HashBucket(k, frameNo, ht[index]);
      ht[index] := tmpBuc;
      chains := chains[index := [tmpBuc] + was];
      bindings := bindings[k := frameNo];
      Repr := Repr + {tmpBuc};
      assert ChainValid(index) by {
        HeadAdded@Before(index, tmpBuc);
      }
      forall b | 0 <= b < |chains| && b != index ensures ChainValid(b) {
        ChainKept@Before(b);
      }
      KeysAdded@Before(index, tmpBuc);
      ok := true;
    }

    /** A chain whose nodes, head and bindings nobody touched. */
    twostate lemma ChainKept(b: nat)
      requires this in Repr && ht in Repr && ht.Length == |chains| == old(|chains|) && b < |chains| && old(Repr) <= Repr
      requires old(ht in Repr && ChainValid(b)) && chains[b] == old(chains[b]) && ht[b] == old(ht[b])
      requires forall i :: 0 <= i < |chains[b]| ==> unchanged(chains[b][i])
      requires forall q :: q in old(bindings) && Index(q) == b ==> q in bindings && bindings[q] == old(bindings[q])
      ensures ChainValid(b)
    {
      var chain := chains[b];
      forall i | 0 <= i < |chain| ensures KeyedTo(chain[i], b) {
        assert old(KeyedTo(chain[i], b));
      }
    }

    /** A chain with a new node in front. */
    twostate lemma HeadAdded(b: nat, new node: HashBucket)
      requires this in Repr && ht in Repr && ht.Length == |chains| == old(|chains|) && b < |chains|
      requires Repr == old(Repr) + {node}
      requires old(ht in Repr && ChainValid(b)) && chains[b] == [node] + old(chains[b]) && ht[b] == node
      requires node.next == old(ht[b])
      requires forall i :: 0 <= i < old(|chains[b]|) ==> unchanged(old(chains[b])[i])
      requires Index(node.key) == b && node.key !in old(bindings) && bindings == old(bindings)[node.key := node.frameNo]
      ensures ChainValid(b)
    {
      var chain, was := chains[b], old(chains[b]);
      forall i | 0 <= i < |was| ensures chain[i + 1] == was[i] && was[i].key != node.key {
        assert old(KeyedTo(was[i], b));
      }
      forall i | 0 <= i < |chain| ensures KeyedTo(chain[i], b) && chain[i] in Repr {
        if i > 0 {
          assert chain[i] == was[i - 1] && old(KeyedTo(was[i - 1], b));
        }
      }
    }

    /** Every binding still has its node after one was put in front of chain b. */
    twostate lemma KeysAdded(b: nat, new node: HashBucket)
      requires old(Valid()) && |chains| == old(|chains|) && b < |chains|
      requires chains == old(chains)[b := [node] + old(chains[b])] && Index(node.key) == b
      requires bindings == old(bindings)[node.key := node.frameNo]
      ensures forall k :: k in bindings ==> exists i :: Holds(chains[Index(k)], i, k)
    {
      forall q | q in bindings ensures exists i :: Holds(chains[Index(q)], i, q) {
        if q == node.key {
          assert Holds(chains[b], 0, q);
        } else {
          var i :| Holds(old(chains)[Index(q)], i, q);
          assert Holds(chains[Index(q)], if Index(q) == b then i + 1 else i, q);
        }
      }
    }

    /** Takes a binding out of the middle of its chain; false (HashNotFound) when absent. */
    method Remove(k: PageKey) returns (ok: bool)
      requires Valid()
      modifies Repr
      ensures Valid() && Repr == old(Repr)
      ensures ok <==> k in old(bindings)
      ensures bindings == old(bindings) - {k}
    {
      var index := Index(k);
      ghost var chain, i := chains[index], 0;
      var tmpBuc, prevBuc: HashBucket? := ht[index], null;
      assert ChainValid(index);
      while tmpBuc != null && tmpBuc.key != k
        invariant i <= |chain| && tmpBuc == (if i < |chain| then chain[i] else null)
        invariant prevBuc == (if i == 0 then null else chain[i - 1])
        invariant forall j :: 0 <= j < i ==> chain[j].key != k
        decreases |chain| - i
      {
        assert chain[i].next == if i + 1 < |chain| then chain[i + 1] else null;
        prevBuc := tmpBuc;
        tmpBuc := tmpBuc.next;
        i := i + 1;
      }
      if tmpBuc == null {
        assert forall j :: !Holds(chain, j, k);
        return false;
      }
      assert KeyedTo(chain[i], index);
      Unlink(index, i, prevBuc, tmpBuc);
      ok := true;
    }

    /** Relinks around node i of chain b (lines 76-79). */
    method Unlink(b: nat, ghost i: nat, prevBuc: HashBucket?, tmpBuc: HashBucket)
      requires Valid() && b < ht.Length && i < |chains[b]| && tmpBuc == chains[b][i]
      requires prevBuc == if i == 0 then null else chains[b][i - 1]
      modifies Repr
      ensures Valid() && Repr == old(Repr) && bindings == old(bindings) - {tmpBuc.key}
    {
      hide ChainValid, KeyedTo, Holds;
      assert ChainValid(b);
      ghost var chain := chains[b];
      ChainFacts(b, i);
      if prevBuc != null {
        prevBuc.next := tmpBuc.next;
      } else {
        ht[b] := tmpBuc.next;
      }
      chains := chains[b := chain[..i] + chain[i + 1..]];
      bindings := bindings - {tmpBuc.key};
      assert ChainValid(b) by {
        NodeRemoved(b, i);
      }
      forall a | 0 <= a < |chains| && a != b ensures ChainValid(a) {
        OtherChainKept(a, b, i);
      }
      KeysLeft(b, i);
    }

    lemma ChainFacts(b: nat, i: nat)
      requires Valid() && b < ht.Length && i < |chains[b]|
      ensures Index(chains[b][i].key) == b && chains[b][i] in Repr && (i > 0 ==> chains[b][i - 1] in Repr)
      ensures ChainValid(b)
    {
      assert ChainValid(b);
      assert KeyedTo(chains[b][i], b);
    }

    /** Nodes and keys of another chain lie outside chain b. */
    twostate lemma OtherChain(a: nat, new b: nat, new i: nat)
      requires old(Valid()) && a < old(|chains|) && b < old(|chains|) && a != b && i < old(|chains[b]|)
      requires i > 0 ==>
        forall o :: o in old(Repr) && o != old(chains[b])[i - 1] && o != this && o != ht ==> unchanged(o)
      requires i == 0 ==> forall o :: o in old(Repr) && o != this && o != ht ==> unchanged(o)
      ensures forall j :: 0 <= j < old(|chains[a]|) ==> unchanged(old(chains[a])[j])
      ensures Index(old(chains[b])[i].key) == b
    {
      assert old(ChainValid(a)) && old(ChainValid(b));
      assert old(KeyedTo(chains[b][i], b));
      forall j | 0 <= j < old(|chains[a]|) ensures unchanged(old(chains[a])[j]) {
        assert old(KeyedTo(chains[a][j], a));
        if i > 0 {
          assert old(KeyedTo(chains[b][i - 1], b));
        }
      }
    }

    twostate lemma OtherChainKept(a: nat, new b: nat, new i: nat)
      requires old(Valid()) && a < old(|chains|) && b < old(|chains|) && a != b && i < old(|chains[b]|)
      requires Repr == old(Repr) && |chains| == old(|chains|) && chains[a] == old(chains[a]) && ht[a] == old(ht[a])
      requires i > 0 ==>
        forall o :: o in old(Repr) && o != old(chains)[b][i - 1] && o != this && o != ht ==> unchanged(o)
      requires i == 0 ==> forall o :: o in old(Repr) && o != this && o != ht ==> unchanged(o)
      requires bindings == old(bindings) - {old(chains)[b][i].key}
      ensures ChainValid(a)
    {
      OtherChain(a, b, i);
      ChainKept(a);
    }

    /** Chain b without its node i. */
    twostate lemma NodeRemoved(b: nat, new i: nat)
      requires this in Repr && ht in Repr && ht.Length == |chains| == old(|chains|) && b < |chains| && Repr == old(Repr)
      requires old(ht in Repr && ChainValid(b)) && i < old(|chains[b]|)
      requires chains[b] == old(chains[b])[..i] + old(chains[b])[i + 1..]
      requires bindings == old(bindings) - {old(chains[b])[i].key}
      requires forall j :: 0 <= j < old(|chains[b]|) && j != i - 1 ==> unchanged(old(chains[b])[j])
      requires i > 0 ==> old(chains[b])[i - 1].next == old(chains[b][i].next) && ht[b] == old(ht[b])
      requires i == 0 ==> ht[b] == old(chains[b][i].next)
      ensures ChainValid(b)
    {
      var chain, was := chains[b], old(chains[b]);
      forall j | 0 <= j < |chain| ensures KeyedTo(chain[j], b) && chain[j] in Repr {
        var o := if j < i then j else j + 1;
        assert chain[j] == was[o] && old(KeyedTo(was[o], b));
        assert was[o].key != was[i].key;
      }
    }

    twostate lemma KeysLeft(b: nat, new i: nat)
      requires old(Valid()) && |chains| == old(|chains|) && b < |chains| && i < old(|chains[b]|)
      requires chains == old(chains)[b := old(chains[b])[..i] + old(chains[b])[i + 1..]]
      requires bindings == old(bindings) - {old(chains[b])[i].key}
      ensures forall k :: k in bindings ==> exists i :: Holds(chains[Index(k)], i, k)
    {
      forall q | q in bindings ensures exists i :: Holds(chains[Index(q)], i, q) {
        var j :| Holds(old(chains)[Index(q)], j, q);
        assert Holds(chains[Index(q)], if Index(q) == b && j > i then j - 1 else j, q);
      }
    }
  }
}
