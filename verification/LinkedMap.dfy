/** The pair every cache of this project keeps: a list of nodes in recency order, and a hash map
    from keys to nodes of that list.  A reference to a node plays the part of a list iterator: it
    stays valid while other nodes are inserted, moved and erased. */
module LinkedMap {
  import opened Recency

  class Node<K, P> {
    const key: K
    var payload: P

    constructor (key: K, payload: P)
      ensures this.key == key && this.payload == payload
    {
      this.key := key;
      this.payload := payload;
    }
  }

  /** List and map agree: the same keys, no duplicates, each map entry pointing at its own node. */
  ghost predicate Agree<K, P>(list: seq<Node<K, P>>, index: map<K, Node<K, P>>) {
    && (forall i, j :: 0 <= i < j < |list| ==> list[i].key != list[j].key)
    && (forall i :: 0 <= i < |list| ==> list[i].key in index && index[list[i].key] == list[i])
    && (forall k :: k in index ==> index[k] in list && index[k].key == k)
  }

  /** What the list says, without the nodes. */
  ghost function Entries<K, P>(list: seq<Node<K, P>>): (s: seq<Entry<K, P>>)
    reads list
    ensures |s| == |list|
    ensures forall i :: 0 <= i < |s| ==> s[i] == Entry(list[i].key, list[i].payload)
  {
    seq(|list|, i requires 0 <= i < |list| reads list => Entry(list[i].key, list[i].payload))
  }

  /** The position a node has in the list. */
  function Position<K, P>(list: seq<Node<K, P>>, n: Node<K, P>): (i: nat)
    requires n in list
    ensures i < |list| && list[i] == n
  {
    if list[0] == n then 0 else 1 + Position(list[1..], n)
  }

  function Erased<K, P>(list: seq<Node<K, P>>, n: Node<K, P>): seq<Node<K, P>>
    requires n in list
  {
    var i := Position(list, n);
    list[..i] + list[i + 1..]
  }

  /** The list after its node `n` is spliced to the front. */
  function Spliced<K, P>(list: seq<Node<K, P>>, n: Node<K, P>): seq<Node<K, P>>
    requires n in list
  {
    [n] + Erased(list, n)
  }

  lemma AgreeFind<K, P>(list: seq<Node<K, P>>, index: map<K, Node<K, P>>, k: K)
    requires Agree(list, index)
    ensures Distinct(Entries(list))
    ensures Has(Entries(list), k) <==> k in index
    ensures k in index ==> list[Find(Entries(list), k)] == index[k]
    ensures k in index ==> Position(list, index[k]) == Find(Entries(list), k)
  {
    var s := Entries(list);
    if k in index {
      var i := Position(list, index[k]);
      assert s[i].key == k;
      FindAt(s, i);
    }
  }

  lemma ErasedKeeps<K, P>(list: seq<Node<K, P>>, index: map<K, Node<K, P>>, n: Node<K, P>)
    requires Agree(list, index) && n in list
    ensures var l := Erased(list, n);
            |l| == |list| - 1
            && (forall x :: x in l <==> x in list && x != n)
            && (forall i, j :: 0 <= i < j < |l| ==> l[i].key != l[j].key)
  {
    var i := Position(list, n);
    var l := Erased(list, n);
    forall x | x in list && x != n ensures x in l {
      var m := Position(list, x);
      assert l[if m < i then m else m - 1] == x;
    }
    forall x | x in l ensures x in list && x != n {
      var m := Position(l, x);
      assert x == list[if m < i then m else m + 1];
    }
  }

  lemma EraseKeepsAgreement<K, P>(list: seq<Node<K, P>>, index: map<K, Node<K, P>>, k: K)
    requires Agree(list, index) && k in index
    ensures Agree(Erased(list, index[k]), index - {k})
  {
    ErasedKeeps(list, index, index[k]);
    var l := Erased(list, index[k]);
    forall i | 0 <= i < |l| ensures l[i].key in index - {k} && index[l[i].key] == l[i] {
      assert l[i] in list;
      assert list[Position(list, l[i])] == l[i];
    }
  }

  /** Erasing a node and its map entry keeps the agreement; on the contents it is a drop. */
  lemma EraseAgrees<K, P>(list: seq<Node<K, P>>, index: map<K, Node<K, P>>, k: K, capacity: nat)
    requires Agree(list, index) && k in index
    ensures var l := Erased(list, index[k]);
            |l| == |list| - 1 && Agree(l, index - {k})
            && Entries(l) == Without(Entries(list), k) == Apply(Entries(list), Drop(k), capacity)
  {
    EraseKeepsAgreement(list, index, k);
    ErasedEntries(list, index, k);
  }

  lemma ErasedEntries<K, P>(list: seq<Node<K, P>>, index: map<K, Node<K, P>>, k: K)
    requires Agree(list, index) && k in index
    ensures Entries(Erased(list, index[k])) == Without(Entries(list), k)
  {
    AgreeFind(list, index, k);
    var i := Position(list, index[k]);
    var s := Entries(list);
    assert list[..i] + list[i + 1..] == Erased(list, index[k]);
    EntriesConcat(list[..i], list[i + 1..]);
    assert Entries(list[..i]) == s[..i];
    assert Entries(list[i + 1..]) == s[i + 1..];
  }

  lemma EntriesConcat<K, P>(a: seq<Node<K, P>>, b: seq<Node<K, P>>)
    ensures Entries(a + b) == Entries(a) + Entries(b)
  {
  }

  /** Moving a node to the front keeps the agreement; on the contents it is a touch. */
  lemma SpliceAgrees<K, P>(list: seq<Node<K, P>>, index: map<K, Node<K, P>>, k: K, capacity: nat)
    requires Agree(list, index) && k in index
    ensures var l := Spliced(list, index[k]);
            |l| == |list| && Agree(l, index)
            && Entries(l) == Apply(Entries(list), Touch(k), capacity)
  {
    EraseAgrees(list, index, k, capacity);
    AgreeFind(list, index, k);
    var rest := Erased(list, index[k]);
    LinkAgrees(rest, index - {k}, index[k]);
    assert (index - {k})[k := index[k]] == index;
  }

  /** Linking a new node at the front keeps the agreement. */
  lemma LinkAgrees<K, P>(list: seq<Node<K, P>>, index: map<K, Node<K, P>>, n: Node<K, P>)
    requires Agree(list, index) && n.key !in index
    ensures Agree([n] + list, index[n.key := n])
    ensures Entries([n] + list) == [Entry(n.key, n.payload)] + Entries(list)
  {
    var l := [n] + list;
    forall k | k in index ensures index[k] in l {
      assert l[Position(list, index[k]) + 1] == index[k];
    }
  }

  /** Erasing the last node and its map entry keeps the agreement. */
  lemma EvictAgrees<K, P>(list: seq<Node<K, P>>, index: map<K, Node<K, P>>)
    requires Agree(list, index) && list != []
    ensures var rest, last := list[..|list| - 1], list[|list| - 1];
            Agree(rest, index - {last.key}) && Entries(rest) == Entries(list)[..|rest|]
  {
    var rest, last := list[..|list| - 1], list[|list| - 1];
    forall k | k in index - {last.key} ensures index[k] in rest {
      assert rest[Position(list, index[k])] == index[k];
    }
  }

  lemma AgreeSize<K, P>(list: seq<Node<K, P>>, index: map<K, Node<K, P>>)
    requires Agree(list, index)
    ensures |index| == |list|
  {
    AgreeKeys(list, index);
    KeysOfSize(Entries(list));
  }

  lemma AgreeKeys<K, P>(list: seq<Node<K, P>>, index: map<K, Node<K, P>>)
    requires Agree(list, index)
    ensures Distinct(Entries(list)) && index.Keys == KeysOf(Entries(list))
  {
    forall k | k in index ensures k in KeysOf(Entries(list)) {
      assert Entries(list)[Position(list, index[k])].key == k;
    }
  }
}
