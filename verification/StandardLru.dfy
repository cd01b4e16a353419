/** The plain cache: a list in recency order and a map into it. */
module StandardLru {
  import opened Wrappers
  import opened Recency
  import opened LinkedMap

  class LRUCache<K(==), V> {
    const capacity: nat
    var cacheList: seq<Node<K, V>>
    var cacheMap: map<K, Node<K, V>>

    ghost predicate Valid()
      reads this
    {
      capacity >= 1 && |cacheList| <= capacity && Agree(cacheList, cacheMap)
    }

    /** The key-value pairs, most recently used first. */
    ghost function Contents(): seq<Entry<K, V>>
      reads this, cacheList
    {
      Entries(cacheList)
    }

    ghost function Nodes(): set<Node<K, V>>
      reads this
    {
      set i | 0 <= i < |cacheList| :: cacheList[i]
    }

    lemma ValidDistinct()
      requires Valid()
      ensures Distinct(Contents()) && |Contents()| <= capacity
    {
    }

    constructor (capacity: nat)
      requires capacity > 0
      ensures Valid() && this.capacity == capacity && Contents() == []
    {
      this.capacity := capacity;
      cacheList := [];
      cacheMap := map[];
    }

    method MoveToFront(it: Node<K, V>)
      requires Valid() && it in cacheList
      modifies this`cacheList
      ensures Valid() && Nodes() == old(Nodes())
      ensures Contents() == Apply(old(Contents()), Touch(it.key), capacity)
    {
      hide Find, Apply;
      SpliceAgrees(cacheList, cacheMap, it.key, capacity);
      cacheList := Spliced(cacheList, it);
    }

    method EvictLRU()
      requires Valid()
      modifies this
      ensures Valid() && Contents() == old(Contents())[..if |old(Contents())| == 0 then 0 else |old(Contents())| - 1]
      ensures cacheMap.Keys <= old(cacheMap.Keys) && Nodes() <= old(Nodes())
    {
      if cacheList == [] { return; }
      hide Agree;
      var lruNode := cacheList[|cacheList| - 1];
      EvictAgrees(cacheList, cacheMap);
      cacheMap := cacheMap - {lruNode.key};
      cacheList := cacheList[..|cacheList| - 1];
    }

    method Get(key: K) returns (r: Option<V>)
      requires Valid()
      modifies this`cacheList
      ensures Valid() && Nodes() == old(Nodes())
      ensures Contents() == Apply(old(Contents()), Touch(key), capacity)
      ensures r.Some? <==> Has(old(Contents()), key)
      ensures r.Some? ==> r.value == old(Contents())[Find(old(Contents()), key)].payload
    {
      AgreeFind(cacheList, cacheMap, key);
      if key !in cacheMap { return None; }
      MoveToFront(cacheMap[key]);
      return Some(cacheMap[key].payload);
    }

    method Put(key: K, value: V)
      requires Valid()
      modifies this, Nodes()
      ensures Valid() && Contents() == Apply(old(Contents()), Store(key, value), capacity)
      ensures fresh(Nodes() - old(Nodes()))
    {
      if key in cacheMap {
        Update(cacheMap[key], value);
      } else {
        ghost var before := Contents();
        AgreeFind(cacheList, cacheMap, key);
        if |cacheList| >= capacity {
          EvictLRU();
        }
        assert Contents() == Evicted(before, capacity);
        EmplaceFront(key, value);
      }
    }

    /** The branch of `Put` that links a new node, once there is room for it. */
    method EmplaceFront(key: K, value: V)
      requires Valid() && key !in cacheMap && |cacheList| < capacity
      modifies this
      ensures Valid() && fresh(Nodes() - old(Nodes()))
      ensures Contents() == [Entry(key, value)] + old(Contents())
    {
      ghost var before := Contents();
      var node := new Node(key, value);
      assert Entries(cacheList) == before;
      LinkAgrees(cacheList, cacheMap, node);
      cacheList := [node] + cacheList;
      cacheMap := cacheMap[key := node];
    }

    /** The branch of `Put` that finds the key: write the value, then move the node to the front. */
    method Update(it: Node<K, V>, value: V)
      requires Valid() && it in cacheList
      modifies this`cacheList, it
      ensures Valid() && Nodes() == old(Nodes())
      ensures Contents() == Apply(old(Contents()), Store(it.key, value), capacity)
    {
      ghost var before := Contents();
      ghost var i := Position(cacheList, it);
      AgreeFind(cacheList, cacheMap, it.key);
      it.payload := value;
      assert Contents() == before[i := Entry(it.key, value)];
      UpdateThenTouch(before, i, value, capacity);
      MoveToFront(it);
    }

    method Remove(key: K) returns (found: bool)
      requires Valid()
      modifies this
      ensures Valid() && Contents() == Apply(old(Contents()), Drop(key), capacity)
      ensures found <==> Has(old(Contents()), key)
    {
      AgreeFind(cacheList, cacheMap, key);
      if key !in cacheMap { return false; }
      EraseAgrees(cacheList, cacheMap, key, capacity);
      cacheList := Erased(cacheList, cacheMap[key]);
      cacheMap := cacheMap - {key};
      return true;
    }

    method Clear()
      requires Valid()
      modifies this
      ensures Valid() && Contents() == []
    {
      cacheList := [];
      cacheMap := map[];
    }

    method Size() returns (n: nat)
      requires Valid()
      ensures n == |Contents()| == |cacheMap| <= capacity
    {
      AgreeSize(cacheList, cacheMap);
      n := |cacheList|;
    }
  }
}
