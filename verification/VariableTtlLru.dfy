/** The cache whose entries live for times of their own.  A heap of references to nodes finds those that
    are due; a removed node stays readable through it and is marked. */
module VariableTtlLru {
  import opened ExpireQueue
  import opened Wrappers
  import opened Recency
  import opened LinkedMap

  type Contents<K, V> = seq<Entry<K, Slot<V>>>

  /** The entries that are not expired at `now`, in their order. */
  function Unexpired<K, V>(s: Contents<K, V>, now: int): Contents<K, V> {
    if s == [] then []
    else if s[0].payload.expireTime > now then [s[0]] + Unexpired(s[1..], now) else Unexpired(s[1..], now)
  }

  lemma {:induction false} UnexpiredConcat<K, V>(a: Contents<K, V>, b: Contents<K, V>, now: int)
    ensures Unexpired(a + b, now) == Unexpired(a, now) + Unexpired(b, now)
  {
    if a == [] {
      assert a + b == b;
    } else {
      assert (a + b)[1..] == a[1..] + b;
      UnexpiredConcat(a[1..], b, now);
    }
  }

  lemma {:induction false} AllUnexpired<K, V>(s: Contents<K, V>, now: int)
    requires forall e :: e in s ==> e.payload.expireTime > now
    ensures Unexpired(s, now) == s
  {
    if s != [] {
      AllUnexpired(s[1..], now);
    }
  }

  /** Dropping an expired entry loses no other. */
  lemma DropExpired<K, V>(s: Contents<K, V>, i: nat, now: int)
    requires Distinct(s) && i < |s| && s[i].payload.expireTime <= now
    ensures Unexpired(Without(s, s[i].key), now) == Unexpired(s, now)
    ensures forall e :: e in Without(s, s[i].key) ==> e in s
  {
    FindAt(s, i);
    assert s == s[..i] + ([s[i]] + s[i + 1..]);
    UnexpiredConcat(s[..i], [s[i]] + s[i + 1..], now);
    UnexpiredConcat([s[i]], s[i + 1..], now);
    UnexpiredConcat(s[..i], s[i + 1..], now);
    assert Unexpired([s[i]], now) == [];
  }

  function GetResult<K(==), V>(s: Contents<K, V>, k: K, now: int): Option<V> {
    var i := Find(s, k);
    if i < |s| && now < s[i].payload.expireTime then Some(s[i].payload.value) else None
  }

  /** A put of this key with this expiry leaves every queued expiry as it is. */
  predicate LeavesExpiry<K(==), V>(s: Contents<K, V>, k: K, expireTime: int) {
    Has(s, k) ==> s[Find(s, k)].payload.expireTime == expireTime
  }

  function ExpiryOf<K(==), V>(s: Contents<K, V>, k: K): (t: Option<int>)
    ensures t.Some? <==> Has(s, k)
  {
    if Has(s, k) then Some(s[Find(s, k)].payload.expireTime) else None
  }

  /** Each of the keys is listed and expired at `now`. */
  ghost predicate AllDue<K, V>(s: Contents<K, V>, keys: seq<K>, now: int) {
    forall k :: k in keys ==> Has(s, k) && s[Find(s, k)].payload.expireTime <= now
  }

  lemma NothingDue<K, V>(s: Contents<K, V>, now: int)
    ensures AllDue(s, [], now)
  {
  }

  lemma DueNext<K, V>(s: Contents<K, V>, cur: Contents<K, V>, keys: seq<K>, i: nat, now: int)
    requires Distinct(s) && AllDue(s, keys, now) && forall e :: e in cur ==> e in s
    requires i < |cur| && cur[i].payload.expireTime <= now
    ensures AllDue(s, keys + [cur[i].key], now)
  {
    hide Find;
    assert cur[i] in s;
    var j :| 0 <= j < |s| && s[j] == cur[i];
    FindAt(s, j);
  }

  ghost function KeysOfNodes<K, V>(queue: seq<Node<K, Slot<V>>>): (keys: seq<K>)
    ensures |keys| == |queue| && forall i :: 0 <= i < |keys| ==> keys[i] == queue[i].key
  {
    seq(|queue|, i requires 0 <= i < |queue| => queue[i].key)
  }

  /** Every live node is queued, and of those queued the valid ones are the live ones. */
  ghost predicate LiveQueued<K, V>(live: set<Node<K, Slot<V>>>, queued: set<Node<K, Slot<V>>>)
    reads queued
  {
    live <= queued && forall n :: n in queued ==> (n.payload.isValid <==> n in live)
  }

  lemma LiveQueuedMore<K, V>(live: set<Node<K, Slot<V>>>, queued: set<Node<K, Slot<V>>>, n: Node<K, Slot<V>>)
    requires LiveQueued(live, queued) && n.payload.isValid
    ensures LiveQueued(live + {n}, queued + {n})
  {
  }

  class LRUCacheWithVariableTTL<K(==), V> {
    const capacity: nat
    var cacheList: seq<Node<K, Slot<V>>>
    var cacheMap: map<K, Node<K, Slot<V>>>
    var expireQueue: seq<Node<K, Slot<V>>>

    ghost function Nodes(): set<Node<K, Slot<V>>>
      reads this
    {
      set n | n in cacheList
    }

    ghost function Queued(): set<Node<K, Slot<V>>>
      reads this
    {
      set n | n in expireQueue
    }

    /** The queue is a heap: no node is queued above one that expires earlier. */
    ghost predicate InOrder()
      reads this, expireQueue
    {
      Ordered(expireQueue)
    }

    ghost predicate Valid()
      reads this, Queued()
    {
      && capacity >= 1 && |cacheList| <= capacity && Agree(cacheList, cacheMap)
      && LiveQueued(Nodes(), Queued())
    }

    /** The keys of the queued nodes. */
    ghost function QueuedKeys(): (keys: seq<K>)
      reads this
      ensures |keys| == |expireQueue|
    {
      KeysOfNodes(expireQueue)
    }

    /** No queued node is marked. */
    ghost predicate AllLive()
      reads this
    {
      Queued() <= Nodes()
    }

    /** The node of a key is the listed one, with the payload of its entry. */
    lemma LiveNode(n: Node<K, Slot<V>>)
      requires Valid() && n in Nodes()
      ensures n.key in cacheMap && cacheMap[n.key] == n && n in Queued()
      ensures Has(Entries(), n.key) && Entries()[Find(Entries(), n.key)].payload == n.payload
    {
      AgreeFind(cacheList, cacheMap, n.key);
    }

    lemma LiveIsValid(n: Node<K, Slot<V>>)
      requires Valid() && n in Nodes()
      ensures n.payload.isValid
    {
    }

    lemma MappedNode(k: K)
      requires Valid() && k in cacheMap
      ensures cacheMap[k] in Nodes() && cacheMap[k].key == k
    {
    }

    ghost function Entries(): Contents<K, V>
      reads this, cacheList
    {
      LinkedMap.Entries(cacheList)
    }

    lemma ValidDistinct()
      requires Valid()
      ensures Distinct(Entries())
    {
    }

    constructor (capacity: nat)
      requires capacity > 0
      ensures Valid() && this.capacity == capacity && Entries() == [] && InOrder()
      ensures cacheMap == map[] && expireQueue == []
    {
      this.capacity := capacity;
      cacheList, cacheMap, expireQueue := [], map[], [];
    }

    method MoveToFront(it: Node<K, Slot<V>>)
      requires Valid() && it in cacheList
      modifies this`cacheList
      ensures Valid() && Nodes() == old(Nodes())
      ensures Entries() == Apply(old(Entries()), Touch(it.key), capacity)
    {
      hide Find, Apply, Agree, Spliced, LiveQueued;
      AgreeAt(cacheList, cacheMap, it);
      SpliceAgrees(cacheList, cacheMap, it.key, capacity);
      SplicedSame(cacheList, cacheMap, it);
      ghost var before := Nodes();
      cacheList := Spliced(cacheList, it);
      assert Nodes() == before;
    }

    method RemoveNode(it: Node<K, Slot<V>>)
      requires Valid() && it in cacheList
      modifies this`cacheList, this`cacheMap, it
      ensures Valid() && Nodes() == old(Nodes()) - {it} && !it.payload.isValid
      ensures Entries() == Apply(old(Entries()), Drop(it.key), capacity) && |Entries()| == |old(Entries())| - 1
      ensures cacheMap == old(cacheMap) - {it.key} && (old(InOrder()) ==> InOrder())
    {
      hide Find, Apply, Agree, Erased, Without, Heap;
      ghost var times := Times(expireQueue);
      AgreeAt(cacheList, cacheMap, it);
      EraseAgrees(cacheList, cacheMap, it.key, capacity);
      ErasedKeeps(cacheList, cacheMap, it);
      ghost var before := Nodes();
      var rest := Erased(cacheList, it);
      assert it !in rest;
      it.payload := it.payload.(isValid := false);
      cacheMap := cacheMap - {it.key};
      cacheList := rest;
      assert Nodes() == before - {it};
      assert Times(expireQueue) == times;
    }

    method EvictLRU()
      requires Valid()
      modifies this`cacheList, this`cacheMap, Nodes()
      ensures Valid() && Entries() == old(Entries())[..if |old(Entries())| == 0 then 0 else |old(Entries())| - 1]
      ensures cacheMap.Keys <= old(cacheMap.Keys) && Nodes() <= old(Nodes()) && (old(InOrder()) ==> InOrder())
    {
      if cacheList == [] { return; }
      var lruNode := cacheList[|cacheList| - 1];
      AgreeFind(cacheList, cacheMap, lruNode.key);
      RemoveNode(lruNode);
    }

    method Get(key: K, now: int) returns (r: Option<V>)
      requires Valid()
      modifies this`cacheList, this`cacheMap, Nodes()
      ensures Valid() && Nodes() <= old(Nodes())
      ensures r == GetResult(old(Entries()), key, now) && (old(InOrder()) ==> InOrder())
      ensures Entries() == Apply(old(Entries()), if r.Some? then Touch(key) else Drop(key), capacity)
    {
      hide Agree, LiveQueued, Heap, Find, Without, Apply;
      AgreeFind(cacheList, cacheMap, key);
      DropAbsent(Entries(), key, capacity);
      if key !in cacheMap { return None; }
      var it := cacheMap[key];
      MappedNode(key);
      LiveIsValid(it);
      if !it.payload.isValid || now >= it.payload.expireTime {
        if it.payload.isValid { RemoveNode(it); }
        return None;
      }
      MoveToFront(it);
      r := Some(it.payload.value);
    }

    method Remove(key: K) returns (found: bool)
      requires Valid()
      modifies this`cacheList, this`cacheMap, Nodes()
      ensures Valid() && found == Has(old(Entries()), key) && Nodes() <= old(Nodes()) && (old(InOrder()) ==> InOrder())
      ensures Entries() == Apply(old(Entries()), Drop(key), capacity)
    {
      AgreeFind(cacheList, cacheMap, key);
      if key !in cacheMap { return false; }
      RemoveNode(cacheMap[key]);
      found := true;
    }

    /** An existing key: its expiry changes while it is queued, and it is queued again. */
    method Update(it: Node<K, Slot<V>>, slot: Slot<V>)
      requires Valid() && it in cacheList && slot.isValid
      modifies this, it
      ensures Valid() && Nodes() == old(Nodes()) && cacheMap == old(cacheMap)
      ensures Entries() == Apply(old(Entries()), Store(it.key, slot), capacity)
      ensures old(InOrder()) && slot.expireTime == old(it.payload.expireTime) ==> InOrder()
      ensures it.payload == slot && (LastStays(old(expireQueue), it) ==> expireQueue == old(expireQueue) + [it])
    {
      hide Find, Apply, LiveQueued, Heap;
      ghost var before := Entries();
      ghost var i := Position(cacheList, it);
      AgreeFind(cacheList, cacheMap, it.key);
      UpdateThenTouch(before, i, slot, capacity);
      Overwrite(it, slot);
      MoveToFront(it);
      QueuedAlready(it);
      ghost var queued := Queued();
      Push(it);
      assert Queued() == queued;
    }

    method Overwrite(it: Node<K, Slot<V>>, slot: Slot<V>)
      requires Valid() && it in cacheList && slot.isValid
      modifies it
      ensures Valid() && it.payload == slot
      ensures Entries() == old(Entries())[Position(cacheList, it) := Entry(it.key, slot)]
      ensures old(InOrder()) && slot.expireTime == old(it.payload.expireTime) ==> InOrder()
    {
      hide Heap;
      ghost var i, times := Position(cacheList, it), Times(expireQueue);
      it.payload := slot;
      assert slot.expireTime == old(it.payload.expireTime) ==> Times(expireQueue) == times;
      assert Entries() == old(Entries())[i := Entry(it.key, slot)];
    }

    lemma QueuedAlready(it: Node<K, Slot<V>>)
      requires Valid() && it in cacheList
      ensures it in Queued()
    {
      assert it in Nodes();
    }

    method Push(it: Node<K, Slot<V>>)
      modifies this`expireQueue
      ensures Queued() == old(Queued()) + {it} && (old(InOrder()) ==> InOrder())
      ensures LastStays(old(expireQueue), it) ==> expireQueue == old(expireQueue) + [it]
    {
      hide Heap;
      ghost var before := Queued();
      expireQueue := PushHeap(expireQueue, it);
      assert Queued() == before + {it};
    }

    method EmplaceFront(key: K, slot: Slot<V>)
      requires Valid() && key !in cacheMap && |cacheList| < capacity && slot.isValid
      modifies this
      ensures Valid() && fresh(Nodes() - old(Nodes())) && (old(InOrder()) ==> InOrder())
      ensures Entries() == [Entry(key, slot)] + old(Entries())
      ensures key in cacheMap && cacheMap == old(cacheMap)[key := cacheMap[key]] && cacheMap[key].payload == slot
      ensures LastStays(old(expireQueue), cacheMap[key]) ==> expireQueue == old(expireQueue) + [cacheMap[key]]
    {
      hide Find, Agree, Heap, LiveQueued, LastStays;
      ghost var before, nodes, queued := Entries(), Nodes(), Queued();
      var node := new Node(key, slot);
      assert LinkedMap.Entries(cacheList) == before;
      LinkAgrees(cacheList, cacheMap, node);
      cacheList := [node] + cacheList;
      cacheMap := cacheMap[key := node];
      assert Nodes() == nodes + {node};
      Push(node);
      LiveQueuedMore(nodes, queued, node);
    }

    /** `ttl` zero is refused. */
    method Put(key: K, value: V, now: int, ttlMs: nat) returns (accepted: bool)
      requires Valid()
      modifies this, Nodes()
      ensures Valid() && fresh(Nodes() - old(Nodes())) && accepted == (ttlMs > 0)
      ensures Entries()
              == if accepted then Apply(old(Entries()), Store(key, Slot(value, now + ttlMs, true)), capacity)
                 else old(Entries())
      ensures old(InOrder()) && (accepted ==> LeavesExpiry(old(Entries()), key, now + ttlMs)) ==> InOrder()
      ensures accepted && (key in old(cacheMap) || |old(cacheList)| < capacity) ==>
                && key in cacheMap && cacheMap == old(cacheMap)[key := cacheMap[key]]
                && (key in old(cacheMap) ==> cacheMap == old(cacheMap))
                && cacheMap[key].payload == Slot(value, now + ttlMs, true)
                && (LastStays(old(expireQueue), cacheMap[key]) ==> expireQueue == old(expireQueue) + [cacheMap[key]])
    {
      hide Find, Without, LiveQueued, Heap;
      accepted := ttlMs > 0;
      if !accepted { return; }
      var slot := Slot(value, now + ttlMs, true);
      AgreeFind(cacheList, cacheMap, key);
      if key in cacheMap {
        Update(cacheMap[key], slot);
      } else {
        ghost var before := Entries();
        if |cacheList| >= capacity {
          EvictLRU();
        }
        assert Entries() == Evicted(before, capacity);
        EmplaceFront(key, slot);
      }
    }

    // ---- The queue ----

    /** What is on top is neither marked nor expired. */
    ghost predicate TopNotDue(now: int)
      reads this, expireQueue
    {
      expireQueue != [] && expireQueue[0].payload.isValid && expireQueue[0].payload.expireTime > now
    }

    /** Removes from the top while what is there is marked or expired at the one time read first. */
    method CleanupExpired(now: int) returns (removedCount: nat, ghost dropped: seq<K>)
      requires Valid()
      modifies this, Nodes()
      ensures Valid() && Nodes() <= old(Nodes())
      ensures Entries() == ApplyAll(old(Entries()), Drops(dropped), capacity) && AllDue(old(Entries()), dropped, now)
      ensures Unexpired(Entries(), now) == Unexpired(old(Entries()), now)
      ensures removedCount == |old(Entries())| - |Entries()| == |dropped|
      ensures old(InOrder()) ==> InOrder() && Entries() == Unexpired(old(Entries()), now)
      ensures capacity == 1 ==> Entries() == Unexpired(old(Entries()), now)
      ensures old(TopNotDue(now)) ==> removedCount == 0 && Entries() == old(Entries())
    {
      hide Agree, LiveQueued, Unexpired, Without, Find, Apply, ApplyAll, Drops, Heap, AllDue;
      removedCount, dropped := 0, [];
      DropsNothing(Entries(), capacity);
      NothingDue(Entries(), now);
      ValidDistinct();
      while expireQueue != []
        invariant Valid() && Nodes() <= old(Nodes())
        invariant Unexpired(Entries(), now) == Unexpired(old(Entries()), now)
        invariant forall e :: e in Entries() ==> e in old(Entries())
        invariant Entries() == ApplyAll(old(Entries()), Drops(dropped), capacity)
        invariant AllDue(old(Entries()), dropped, now)
        invariant removedCount == |old(Entries())| - |Entries()| == |dropped|
        invariant old(InOrder()) ==> InOrder()
        invariant old(TopNotDue(now)) ==> removedCount == 0 && Entries() == old(Entries()) && TopNotDue(now)
        decreases |expireQueue|
      {
        var it := expireQueue[0];
        if !it.payload.isValid {
          PopMarked();
          continue;
        }
        if it.payload.expireTime > now {
          if InOrder() { NoneDue(now); }
          QueuedIsLive(it);
          if capacity == 1 { OnlyNotDue(it, now); }
          return;
        }
        QueuedIsLive(it);
        ExpiredGoes(it, now);
        DueNext(old(Entries()), Entries(), dropped, Position(cacheList, it), now);
        DropsNext(old(Entries()), dropped, it.key, capacity);
        dropped := dropped + [it.key];
        RemoveNode(it);
        PopMarked();
        removedCount := removedCount + 1;
      }
      EmptyQueue(now);
    }

    /** Takes a marked node off the top. */
    method PopMarked()
      requires Valid() && expireQueue != [] && !expireQueue[0].payload.isValid
      modifies this`expireQueue
      ensures Valid() && |expireQueue| == |old(expireQueue)| - 1 && (old(InOrder()) ==> InOrder())
    {
      hide Agree, Heap;
      expireQueue := PopHeap(expireQueue);
    }

    lemma QueuedIsLive(it: Node<K, Slot<V>>)
      requires Valid() && it in expireQueue && it.payload.isValid
      ensures it in cacheList
    {
      assert it in Queued();
    }

    lemma EmptyQueue(now: int)
      requires Valid() && expireQueue == []
      ensures Entries() == [] == Unexpired(Entries(), now)
    {
      assert Queued() == {};
      NoNodes(cacheList, Nodes());
    }

    /** When the top of an ordered queue is not due, nothing is. */
    lemma NoneDue(now: int)
      requires Valid() && InOrder() && expireQueue != [] && expireQueue[0].payload.expireTime > now
      ensures Unexpired(Entries(), now) == Entries()
    {
      hide Heap;
      TopExpiresFirst(expireQueue);
      forall e | e in Entries() ensures e.payload.expireTime > now {
        var i :| 0 <= i < |cacheList| && e == Entries()[i];
        QueuedAlready(cacheList[i]);
      }
      AllUnexpired(Entries(), now);
    }

    /** A list of one holds nothing but what is on top. */
    lemma OnlyNotDue(it: Node<K, Slot<V>>, now: int)
      requires Valid() && capacity == 1 && it in cacheList && it.payload.expireTime > now
      ensures Unexpired(Entries(), now) == Entries()
    {
      assert cacheList == [it];
      AllUnexpired(Entries(), now);
    }

    lemma ExpiredGoes(it: Node<K, Slot<V>>, now: int)
      requires Valid() && it in cacheList && it.payload.expireTime <= now
      ensures Unexpired(Apply(Entries(), Drop(it.key), capacity), now) == Unexpired(Entries(), now)
      ensures forall e :: e in Apply(Entries(), Drop(it.key), capacity) ==> e in Entries()
    {
      hide Unexpired;
      var i := Position(cacheList, it);
      DropExpired(Entries(), i, now);
    }

    /** Works on a copy of the queue. */
    method GetNextExpireTime() returns (r: Option<int>)
      requires Valid()
      ensures r.None? <==> Entries() == []
      ensures r.Some? ==> exists e :: e in Entries() && e.payload.expireTime == r.value
      ensures r.Some? && InOrder() ==> forall e :: e in Entries() ==> r.value <= e.payload.expireTime
    {
      hide Agree, Heap;
      var tempQueue := expireQueue;
      while tempQueue != []
        invariant forall n :: n in tempQueue ==> n in expireQueue
        invariant forall n :: n in Nodes() ==> n in tempQueue
        invariant InOrder() ==> Ordered(tempQueue)
        decreases |tempQueue|
      {
        var it := tempQueue[0];
        if it.payload.isValid {
          QueuedIsLive(it);
          assert Entries()[Position(cacheList, it)].payload == it.payload;
          if InOrder() { NextIsFirst(tempQueue); }
          return Some(it.payload.expireTime);
        }
        tempQueue := PopHeap(tempQueue);
      }
      assert Nodes() == {};
      NoNodes(cacheList, Nodes());
      r := None;
    }

    lemma NextIsFirst(queue: seq<Node<K, Slot<V>>>)
      requires Valid() && queue != [] && Ordered(queue) && forall n :: n in Nodes() ==> n in queue
      ensures forall e :: e in Entries() ==> queue[0].payload.expireTime <= e.payload.expireTime
    {
      hide Heap;
      TopExpiresFirst(queue);
      forall e | e in Entries() ensures queue[0].payload.expireTime <= e.payload.expireTime {
        var i :| 0 <= i < |cacheList| && e == Entries()[i];
        assert cacheList[i] in Nodes();
      }
    }

    method Clear()
      requires Valid()
      modifies this
      ensures Valid() && Entries() == [] && InOrder()
    {
      cacheList, cacheMap, expireQueue := [], map[], [];
    }
  }

  lemma DropsNothing<K, P>(s: seq<Entry<K, P>>, capacity: nat)
    ensures ApplyAll(s, Drops([]), capacity) == s
  {
  }

  lemma DropsNext<K, P>(s: seq<Entry<K, P>>, keys: seq<K>, k: K, capacity: nat)
    ensures ApplyAll(s, Drops(keys + [k]), capacity) == Apply(ApplyAll(s, Drops(keys), capacity), Drop(k), capacity)
  {
    hide Apply;
    var es := Drops<K, P>(keys + [k]);
    assert es[..|keys|] == Drops<K, P>(keys);
  }

  lemma NoNodes<T>(list: seq<T>, nodes: set<T>)
    requires forall n :: n in list ==> n in nodes
    ensures nodes == {} ==> list == []
  {
    if list != [] {
      assert list[0] in list;
    }
  }

  lemma AgreeAt<K, P>(list: seq<Node<K, P>>, index: map<K, Node<K, P>>, n: Node<K, P>)
    requires Agree(list, index) && n in list
    ensures n.key in index && index[n.key] == n
  {
  }

  lemma SplicedSame<K, P>(list: seq<Node<K, P>>, index: map<K, Node<K, P>>, n: Node<K, P>)
    requires Agree(list, index) && n in list
    ensures forall x :: x in Spliced(list, n) <==> x in list
  {
    ErasedKeeps(list, index, n);
  }

  // ---- Whole runs ----

  /** One call, with its reading of the clock. */
  datatype Call<K, V> =
    | GetCall(key: K, now: int)
    | PutCall(key: K, value: V, now: int, ttlMs: nat)
    | RemoveCall(key: K)
    | CleanupCall(now: int)

  /** A call that was made; a cleanup with the keys it dropped. */
  datatype Op<K, V> = Op(call: Call<K, V>, dropped: seq<K>)

  function Events<K(==), V>(s: Contents<K, V>, op: Op<K, V>): seq<Event<K, Slot<V>>> {
    match op.call
    case GetCall(k, now) => if !Has(s, k) then [] else if GetResult(s, k, now).Some? then [Touch(k)] else [Drop(k)]
    case PutCall(k, v, now, ttlMs) => if ttlMs == 0 then [] else [Store(k, Slot(v, now + ttlMs, true))]
    case RemoveCall(k) => [Drop(k)]
    case CleanupCall(_) => Drops(op.dropped)
  }

  /** The events of a run on an initially empty cache. */
  function History<K(==), V>(ops: seq<Op<K, V>>, capacity: nat): seq<Event<K, Slot<V>>> {
    if |ops| == 0 then []
    else
      var before := History(ops[..|ops| - 1], capacity);
      before + Events(Run(before, capacity), ops[|ops| - 1])
  }

  /** The list after the run. */
  function State<K(==), V>(ops: seq<Op<K, V>>, capacity: nat): Contents<K, V> {
    Run(History(ops, capacity), capacity)
  }

  /** Cleanups drop only what is expired when they read the clock. */
  ghost predicate Legal<K, V>(ops: seq<Op<K, V>>, capacity: nat) {
    |ops| > 0 ==>
      && Legal(ops[..|ops| - 1], capacity)
      && var op := ops[|ops| - 1];
      && (op.call.CleanupCall? ==> AllDue(State(ops[..|ops| - 1], capacity), op.dropped, op.call.now))
  }

  /** No put hits a listed key, unless with the expiry that it has. */
  predicate Steady<K(==), V>(ops: seq<Op<K, V>>, capacity: nat) {
    |ops| > 0 ==>
      && Steady(ops[..|ops| - 1], capacity)
      && SteadyAt(State(ops[..|ops| - 1], capacity), ops[|ops| - 1].call)
  }

  predicate SteadyAt<K(==), V>(s: Contents<K, V>, call: Call<K, V>) {
    call.PutCall? && call.ttlMs > 0 ==> LeavesExpiry(s, call.key, call.now + call.ttlMs)
  }

  /** Every cleanup of the run left exactly what was not expired. */
  ghost predicate CleanupsComplete<K, V>(ops: seq<Op<K, V>>, capacity: nat) {
    forall i :: 0 <= i < |ops| ==> CompleteAt(ops, i, capacity)
  }

  ghost predicate CompleteAt<K, V>(ops: seq<Op<K, V>>, i: nat, capacity: nat)
    requires i < |ops|
  {
    ops[i].call.CleanupCall? ==>
      State(ops[..i + 1], capacity) == Unexpired(State(ops[..i], capacity), ops[i].call.now)
  }

  ghost predicate Earliest<K, V>(s: Contents<K, V>, first: Option<int>) {
    && (first.None? <==> s == [])
    && (first.Some? ==> (exists e :: e in s && e.payload.expireTime == first.value)
                        && forall e :: e in s ==> first.value <= e.payload.expireTime)
  }

  /** One call on the cache. */
  method Perform<K(==), V>(cache: LRUCacheWithVariableTTL<K, V>, call: Call<K, V>) returns (ghost dropped: seq<K>)
    requires cache.Valid()
    modifies cache, cache.Nodes()
    ensures cache.Valid() && fresh(cache.Nodes() - old(cache.Nodes()))
    ensures cache.Entries()
            == ApplyAll(old(cache.Entries()), Events(old(cache.Entries()), Op(call, dropped)), cache.capacity)
    ensures call.CleanupCall? ==> AllDue(old(cache.Entries()), dropped, call.now)
    ensures old(cache.InOrder()) && SteadyAt(old(cache.Entries()), call) ==>
              && cache.InOrder()
              && (call.CleanupCall? ==> cache.Entries() == Unexpired(old(cache.Entries()), call.now))
    ensures cache.capacity == 1 && call.CleanupCall? ==>
              cache.Entries() == Unexpired(old(cache.Entries()), call.now)
  {
    hide Find, Without, Apply, Agree, LiveQueued, Unexpired, AllDue, Heap;
    dropped := [];
    ghost var s := cache.Entries();
    match call
    case GetCall(k, now) =>
      var _ := cache.Get(k, now);
      OneApplied(s, Touch(k), cache.capacity);
      OneApplied(s, Drop(k), cache.capacity);
      DropAbsent(s, k, cache.capacity);
    case PutCall(k, v, now, ttlMs) =>
      var _ := cache.Put(k, v, now, ttlMs);
      OneApplied(s, Store(k, Slot(v, now + ttlMs, true)), cache.capacity);
    case RemoveCall(k) =>
      var _ := cache.Remove(k);
      OneApplied(s, Drop(k), cache.capacity);
    case CleanupCall(now) =>
      var count;
      count, dropped := cache.CleanupExpired(now);
  }

  lemma OneApplied<K, P>(s: seq<Entry<K, P>>, e: Event<K, P>, capacity: nat)
    ensures ApplyAll(s, [e], capacity) == Apply(s, e, capacity) && ApplyAll(s, [], capacity) == s
  {
    hide Apply;
    assert [e][..0] == [];
  }

  lemma DropAbsent<K, P>(s: seq<Entry<K, P>>, k: K, capacity: nat)
    ensures !Has(s, k) ==> Apply(s, Drop(k), capacity) == s
  {
    hide Find;
  }

  /** A run of calls on a new cache.  Whatever they are, the list is that of the history and cleanups drop
      only what is expired.  If the list has room for one entry only, or no put hits a listed key with
      another expiry, every cleanup removes all that are expired, and the next expiry is the earliest of
      the listed ones. */
  method RunCalls<K(==), V>(capacity: nat, calls: seq<Call<K, V>>)
    returns (cache: LRUCacheWithVariableTTL<K, V>, next: Option<int>, ghost ops: seq<Op<K, V>>)
    requires capacity >= 1
    ensures |ops| == |calls| && forall i :: 0 <= i < |calls| ==> ops[i].call == calls[i]
    ensures fresh(cache) && cache.Valid() && cache.Entries() == State(ops, capacity) && Legal(ops, capacity)
    ensures capacity == 1 || Steady(ops, capacity) ==>
              CleanupsComplete(ops, capacity) && Earliest(State(ops, capacity), next)
  {
    hide Find, Without, Apply, Agree, LiveQueued, Unexpired, AllDue, Heap, State, Events, SteadyAt, Legal, Steady,
         CleanupsComplete, ApplyAll;
    cache := new LRUCacheWithVariableTTL<K, V>(capacity);
    ops := [];
    RunStarts<K, V>(capacity);
    for i := 0 to |calls|
      invariant cache.Valid() && fresh(cache) && fresh(cache.Nodes()) && cache.capacity == capacity
      invariant |ops| == i && forall j :: 0 <= j < i ==> ops[j].call == calls[j]
      invariant cache.Entries() == State(ops, capacity) && Legal(ops, capacity)
      invariant Steady(ops, capacity) ==> cache.InOrder()
      invariant capacity == 1 || Steady(ops, capacity) ==> CleanupsComplete(ops, capacity)
    {
      ghost var dropped := Perform(cache, calls[i]);
      RunContinues(ops, Op(calls[i], dropped), capacity);
      ops := ops + [Op(calls[i], dropped)];
    }
    next := cache.GetNextExpireTime();
    if capacity == 1 { OnlyIsEarliest(cache.Entries(), next); }
  }

  lemma OnlyIsEarliest<K, V>(s: Contents<K, V>, first: Option<int>)
    requires |s| <= 1 && (first.None? <==> s == [])
    requires first.Some? ==> exists e :: e in s && e.payload.expireTime == first.value
    ensures Earliest(s, first)
  {
  }

  lemma RunStarts<K, V>(capacity: nat)
    ensures State<K, V>([], capacity) == [] && Legal<K, V>([], capacity) && Steady<K, V>([], capacity)
    ensures CleanupsComplete<K, V>([], capacity)
  {
  }

  lemma RunContinues<K, V>(ops: seq<Op<K, V>>, op: Op<K, V>, capacity: nat)
    ensures State(ops + [op], capacity) == ApplyAll(State(ops, capacity), Events(State(ops, capacity), op), capacity)
    ensures Legal(ops + [op], capacity)
            <==> && Legal(ops, capacity)
                 && (op.call.CleanupCall? ==> AllDue(State(ops, capacity), op.dropped, op.call.now))
    ensures Steady(ops + [op], capacity) <==> Steady(ops, capacity) && SteadyAt(State(ops, capacity), op.call)
    ensures CleanupsComplete(ops + [op], capacity)
            <==> && CleanupsComplete(ops, capacity)
                 && (op.call.CleanupCall? ==>
                       State(ops + [op], capacity) == Unexpired(State(ops, capacity), op.call.now))
  {
    hide Run, ApplyAll, Events, AllDue, SteadyAt, Unexpired;
    assert (ops + [op])[..|ops|] == ops;
    RunAppend(History(ops, capacity), Events(State(ops, capacity), op), capacity);
    CompleteContinues(ops, op, capacity);
  }

  lemma CompleteContinues<K, V>(ops: seq<Op<K, V>>, op: Op<K, V>, capacity: nat)
    ensures CleanupsComplete(ops + [op], capacity)
            <==> CleanupsComplete(ops, capacity) && CompleteAt(ops + [op], |ops|, capacity)
    ensures (ops + [op])[..|ops|] == ops && (ops + [op])[..|ops| + 1] == ops + [op]
  {
    hide State, Unexpired;
    assert (ops + [op])[..|ops|] == ops && (ops + [op])[..|ops| + 1] == ops + [op];
    forall i | 0 <= i < |ops| ensures CompleteAt(ops + [op], i, capacity) <==> CompleteAt(ops, i, capacity) {
      assert (ops + [op])[..i] == ops[..i] && (ops + [op])[..i + 1] == ops[..i + 1];
    }
  }

  // ---- Runs against the calls ----

  /** The value last put under `k` and its expiry, unless `k` was removed after it. */
  function LastPut<K(==), V>(ops: seq<Op<K, V>>, k: K): Option<(V, int)> {
    if |ops| == 0 then None
    else
      var before := LastPut(ops[..|ops| - 1], k);
      match ops[|ops| - 1].call
      case PutCall(j, v, now, ttlMs) => if j == k && ttlMs > 0 then Some((v, now + ttlMs)) else before
      case RemoveCall(j) => if j == k then None else before
      case _ => before
  }

  /** The distinct other keys put, or hit by a get, since `k` was last put or hit. */
  ghost function OthersUsed<K, V>(ops: seq<Op<K, V>>, k: K, capacity: nat): set<K> {
    if |ops| == 0 then {}
    else
      var before := OthersUsed(ops[..|ops| - 1], k, capacity);
      var used := UsedBy(State(ops[..|ops| - 1], capacity), ops[|ops| - 1].call);
      if used.None? then before else if used.value == k then {} else before + {used.value}
  }

  function UsedBy<K(==), V>(s: Contents<K, V>, call: Call<K, V>): Option<K> {
    if call.PutCall? && call.ttlMs > 0 then Some(call.key)
    else if call.GetCall? && GetResult(s, call.key, call.now).Some? then Some(call.key)
    else None
  }

  /** No reading of the clock in the run is later than `now`. */
  ghost predicate ReadBy<K, V>(ops: seq<Op<K, V>>, now: int) {
    forall i :: 0 <= i < |ops| ==> CallReadBy(ops[i].call, now)
  }

  ghost predicate CallReadBy<K, V>(call: Call<K, V>, now: int) {
    !call.RemoveCall? ==> call.now <= now
  }

  lemma StepStore<K, V>(before: seq<Event<K, Slot<V>>>, op: Op<K, V>, k: K, capacity: nat)
    ensures var s := Run(before, capacity);
            LastStore(before + Events(s, op), k)
            == match op.call
               case GetCall(j, t) =>
                 if j == k && Has(s, k) && GetResult(s, k, t).None? then None else LastStore(before, k)
               case PutCall(j, v, t, ttlMs) =>
                 if j == k && ttlMs > 0 then Some(Slot(v, t + ttlMs, true)) else LastStore(before, k)
               case RemoveCall(j) => if j == k then None else LastStore(before, k)
               case CleanupCall(_) => if k in op.dropped then None else LastStore(before, k)
  {
    hide Find;
    var s := Run(before, capacity);
    if op.call.CleanupCall? {
      DropsInHistory(before, op.dropped, k, capacity);
    } else {
      var es := Events(s, op);
      assert before + [] == before;
      if |es| > 0 { OneEvent(before, es[0]); }
    }
  }

  lemma StepUsed<K, V>(before: seq<Event<K, Slot<V>>>, op: Op<K, V>, k: K, capacity: nat)
    ensures var s := Run(before, capacity);
            var used := UsedBy(s, op.call);
            UsedSince(before + Events(s, op), k, capacity)
            == if used.None? then UsedSince(before, k, capacity)
               else if used.value == k then {} else UsedSince(before, k, capacity) + {used.value}
  {
    hide Find, Has, Run, LastStore, UsedSince, Uses, GetResult;
    var s := Run(before, capacity);
    if op.call.CleanupCall? {
      DropsInHistory(before, op.dropped, k, capacity);
    } else {
      var es := Events(s, op);
      assert before + [] == before;
      if |es| > 0 { OneUsed(before, es[0], k, capacity); }
      HitIsListed(s, op.call);
    }
  }

  lemma OneUsed<K, P>(before: seq<Event<K, P>>, e: Event<K, P>, k: K, capacity: nat)
    ensures UsedSince(before + [e], k, capacity)
            == if e.Drop? || (e.Touch? && !Has(Run(before, capacity), e.key)) then UsedSince(before, k, capacity)
               else if e.key == k then {} else UsedSince(before, k, capacity) + {e.key}
  {
    hide Run, Has;
    OneEvent(before, e);
  }

  lemma HitIsListed<K, V>(s: Contents<K, V>, call: Call<K, V>)
    ensures call.GetCall? && GetResult(s, call.key, call.now).Some? ==> Has(s, call.key)
  {
  }

  /** The list holds only what was really put, with its own expiry. */
  lemma {:induction false} StoredIsPut<K, V>(ops: seq<Op<K, V>>, k: K, capacity: nat)
    requires LastStore(History(ops, capacity), k).Some?
    ensures var p := LastStore(History(ops, capacity), k).value;
            LastPut(ops, k) == Some((p.value, p.expireTime))
  {
    hide Run, Events, GetResult, Find;
    var init, op := ops[..|ops| - 1], ops[|ops| - 1];
    StepStore(History(init, capacity), op, k, capacity);
    if !(op.call.PutCall? && op.call.key == k && op.call.ttlMs > 0) {
      StoredIsPut(init, k, capacity);
    }
  }

  /** A call on other keys, or a get or cleanup before the expiry, leaves what is stored. */
  lemma StepKeeps<K, V>(before: seq<Event<K, Slot<V>>>, op: Op<K, V>, k: K, now: int, capacity: nat)
    requires capacity >= 1 && CallReadBy(op.call, now)
    requires op.call.CleanupCall? ==> AllDue(Run(before, capacity), op.dropped, op.call.now)
    requires LastStore(before, k).Some? && now < LastStore(before, k).value.expireTime
    requires (op.call.PutCall? && op.call.ttlMs > 0) || op.call.RemoveCall? ==> op.call.key != k
    ensures LastStore(before + Events(Run(before, capacity), op), k) == LastStore(before, k)
  {
    hide LastStore, Run, Events, Apply;
    var s := Run(before, capacity);
    StepStore(before, op, k, capacity);
    if Has(s, k) { StoredEntry(before, capacity, Find(s, k)); }
  }

  /** What was put and not removed stays stored as long as it is not expired, whatever cleanups there are. */
  lemma {:induction false} PutStaysStored<K, V>(ops: seq<Op<K, V>>, k: K, now: int, capacity: nat)
    requires capacity >= 1 && Legal(ops, capacity) && ReadBy(ops, now)
    requires LastPut(ops, k).Some? && now < LastPut(ops, k).value.1
    ensures var (v, t) := LastPut(ops, k).value;
            LastStore(History(ops, capacity), k) == Some(Slot(v, t, true))
  {
    hide LastStore, Run, Events, GetResult, Find, AllDue;
    var init, op := ops[..|ops| - 1], ops[|ops| - 1];
    var before := History(init, capacity);
    if op.call.PutCall? && op.call.key == k && op.call.ttlMs > 0 {
      StepStore(before, op, k, capacity);
    } else {
      PutStaysStored(init, k, now, capacity);
      StepKeeps(before, op, k, now, capacity);
    }
  }

  lemma {:induction false} OthersUsedAre<K, V>(ops: seq<Op<K, V>>, k: K, capacity: nat)
    ensures UsedSince(History(ops, capacity), k, capacity) == OthersUsed(ops, k, capacity)
  {
    if |ops| > 0 {
      hide Run, Events, UsedBy, UsedSince;
      var init := ops[..|ops| - 1];
      OthersUsedAre(init, k, capacity);
      StepUsed(History(init, capacity), ops[|ops| - 1], k, capacity);
    } else {
      NothingUsed<K, V>(k, capacity);
    }
  }

  lemma NothingUsed<K, V>(k: K, capacity: nat)
    ensures UsedSince<K, Slot<V>>([], k, capacity) == {}
  {
  }

  /** A get returns only the latest value put under the key, not removed since and not over its time. */
  lemma GetIsFresh<K, V>(ops: seq<Op<K, V>>, k: K, now: int, capacity: nat)
    requires capacity >= 1 && GetResult(State(ops, capacity), k, now).Some?
    ensures LastPut(ops, k).Some? && now < LastPut(ops, k).value.1
    ensures GetResult(State(ops, capacity), k, now) == Some(LastPut(ops, k).value.0)
  {
    KeptIsLatest(History(ops, capacity), capacity, k);
    StoredIsPut(ops, k, capacity);
  }

  /** Conversely, a value put and not removed is found while its time lasts, whatever gets and cleanups
      there were, as long as fewer than `capacity` distinct other keys were put or hit since its key was. */
  lemma GetFindsFresh<K, V>(ops: seq<Op<K, V>>, k: K, now: int, capacity: nat)
    requires capacity >= 1 && Legal(ops, capacity) && ReadBy(ops, now)
    requires LastPut(ops, k).Some? && now < LastPut(ops, k).value.1
    requires |OthersUsed(ops, k, capacity)| < capacity
    ensures GetResult(State(ops, capacity), k, now) == Some(LastPut(ops, k).value.0)
  {
    hide History, LastPut, OthersUsed, UsedSince, LastStore, Legal, ReadBy, Run;
    PutStaysStored(ops, k, now, capacity);
    OthersUsedAre(ops, k, capacity);
    Retention(History(ops, capacity), capacity, k);
    KeptIsLatest(History(ops, capacity), capacity, k);
  }

  // ---- An expiry changed under the queue ----

  /** A put whose node is queued last, because its parent in the heap does not expire later. */
  method PutQueuedLast<K(==), V>(cache: LRUCacheWithVariableTTL<K, V>, key: K, value: V, start: int, expireTime: int)
    requires cache.Valid() && cache.AllLive() && start < expireTime
    requires Has(cache.Entries(), key) || |cache.cacheList| < cache.capacity
    requires var keys := cache.QueuedKeys();
             var s := Apply(cache.Entries(), Store(key, Slot(value, expireTime, true)), cache.capacity);
             keys != [] ==> ExpiryOf(s, keys[(|keys| - 1) / 2]).Some?
                            && ExpiryOf(s, keys[(|keys| - 1) / 2]).value <= expireTime
    modifies cache, cache.Nodes()
    ensures cache.Valid() && cache.AllLive() && fresh(cache.Nodes() - old(cache.Nodes()))
    ensures cache.Entries() == Apply(old(cache.Entries()), Store(key, Slot(value, expireTime, true)), cache.capacity)
    ensures cache.QueuedKeys() == old(cache.QueuedKeys()) + [key]
  {
    hide Find, Without, Apply, LiveQueued, Heap, Agree, ExpiryOf, LastStays;
    ghost var queue, nodes, index := cache.expireQueue, cache.Nodes(), cache.cacheMap;
    AgreeFind(cache.cacheList, cache.cacheMap, key);
    ghost var s := Apply(cache.Entries(), Store(key, Slot(value, expireTime, true)), cache.capacity);
    assert queue != [] ==> queue[(|queue| - 1) / 2].key == cache.QueuedKeys()[(|queue| - 1) / 2];
    forall n | n in nodes ensures n.key in index && index[n.key] == n {
      cache.LiveNode(n);
    }
    var _ := cache.Put(key, value, start, expireTime - start);
    forall n | n in nodes ensures n in cache.Nodes() {
      cache.MappedNode(n.key);
    }
    cache.MappedNode(key);
    assert forall n :: n in queue ==> n in nodes by { QueueNodes(queue, nodes); }
    ParentStays(cache, queue, key);
    KeysAppend(queue, cache.cacheMap[key]);
  }

  lemma KeysAppend<K, V>(queue: seq<Node<K, Slot<V>>>, n: Node<K, Slot<V>>)
    ensures KeysOfNodes(queue + [n]) == KeysOfNodes(queue) + [n.key]
  {
  }

  lemma QueueNodes<T>(queue: seq<T>, nodes: set<T>)
    requires (set n | n in queue) <= nodes
    ensures forall n :: n in queue ==> n in nodes
  {
    forall n | n in queue ensures n in nodes {
      assert n in (set x | x in queue);
    }
  }

  /** What the entries say of the parent's expiry is what the heap compares. */
  lemma ParentStays<K, V>(cache: LRUCacheWithVariableTTL<K, V>, queue: seq<Node<K, Slot<V>>>, key: K)
    requires cache.Valid() && key in cache.cacheMap && forall n :: n in queue ==> n in cache.Nodes()
    requires queue != [] ==>
               var t := ExpiryOf(cache.Entries(), queue[(|queue| - 1) / 2].key);
               t.Some? && t.value <= cache.cacheMap[key].payload.expireTime
    ensures LastStays(queue, cache.cacheMap[key])
  {
    hide Find, LiveQueued, Agree;
    if queue != [] {
      cache.LiveNode(queue[(|queue| - 1) / 2]);
    }
  }

  /** A cleanup whose top is not due removes nothing, whatever else is due. */
  method StopsAtTop<K(==), V>(cache: LRUCacheWithVariableTTL<K, V>, now: int) returns (removed: nat)
    requires cache.Valid() && cache.AllLive() && cache.expireQueue != []
    requires var top := ExpiryOf(cache.Entries(), cache.QueuedKeys()[0]); top.Some? && top.value > now
    modifies cache, cache.Nodes()
    ensures cache.Valid() && fresh(cache.Nodes() - old(cache.Nodes()))
    ensures removed == 0 && cache.Entries() == old(cache.Entries())
  {
    hide Find, Without, Apply, LiveQueued, Heap, Agree, ApplyAll, Unexpired, AllDue;
    assert cache.expireQueue[0] in cache.Queued();
    cache.LiveNode(cache.expireQueue[0]);
    cache.LiveIsValid(cache.expireQueue[0]);
    ghost var dropped;
    removed, dropped := cache.CleanupExpired(now);
  }

  function Item<K, V>(k: K, v: V, t: int): Entry<K, Slot<V>> {
    Entry(k, Slot(v, t, true))
  }

  /** The two keys stored, each once, in a list with room for both. */
  lemma PairStates<K, V>(k1: K, k2: K, v: V, a: int, b: int, capacity: nat)
    requires k1 != k2 && capacity >= 2
    ensures Apply([], Store(k1, Slot(v, a, true)), capacity) == [Item(k1, v, a)]
    ensures Apply([Item(k1, v, a)], Store(k2, Slot(v, b, true)), capacity) == [Item(k2, v, b), Item(k1, v, a)]
  {
  }

  /** What a store to either of two listed keys makes of the list. */
  lemma PairStored<K, V>(k1: K, k2: K, v: V, a: int, b: int, c: int, capacity: nat)
    requires k1 != k2
    ensures var s := [Item(k2, v, b), Item(k1, v, a)];
            && Has(s, k1) && Has(s, k2) && ExpiryOf(s, k1) == Some(a) && ExpiryOf(s, k2) == Some(b)
            && Apply(s, Store(k1, Slot(v, c, true)), capacity) == [Item(k1, v, c), Item(k2, v, b)]
            && Apply(s, Store(k2, Slot(v, c, true)), capacity) == [Item(k2, v, c), Item(k1, v, a)]
  {
    var s := [Item(k2, v, b), Item(k1, v, a)];
    FindAt(s, 0);
    FindAt(s, 1);
  }

  /** A cache with two keys, queued in the order of their expiries. */
  method PutPair<K(==), V>(capacity: nat, k1: K, k2: K, v: V, start: int, a: int, b: int)
    returns (cache: LRUCacheWithVariableTTL<K, V>)
    requires capacity >= 2 && k1 != k2 && start < a <= b
    ensures fresh(cache) && cache.Valid() && cache.AllLive() && fresh(cache.Nodes()) && cache.capacity == capacity
    ensures cache.Entries() == [Item(k2, v, b), Item(k1, v, a)] && cache.QueuedKeys() == [k1, k2]
  {
    hide Apply, Find, Has, Heap, LiveQueued, Agree, ExpiryOf;
    PairStates(k1, k2, v, a, b, capacity);
    PairStored(k1, k2, v, a, b, b, capacity);
    cache := new LRUCacheWithVariableTTL<K, V>(capacity);
    PutQueuedLast(cache, k1, v, start, a);
    PutQueuedLast(cache, k2, v, start, b);
  }

  /** Why the condition is there, in every cache with room for two, for a later expiry: the node on top now
      expires last, and a cleanup stops there although another entry is due. */
  method LaterExpiryHides<K(==), V>(capacity: nat, k1: K, k2: K, v: V, start: int, a: int, b: int, c: int, now: int)
    returns (cache: LRUCacheWithVariableTTL<K, V>, removed: nat)
    requires capacity >= 2 && k1 != k2 && start < a <= b <= now < c
    ensures fresh(cache) && cache.Valid() && cache.capacity == capacity && removed == 0
    ensures cache.Entries() == [Entry(k1, Slot(v, c, true)), Entry(k2, Slot(v, b, true))]
  {
    hide Apply, Find, Has, Heap, LiveQueued, Agree, ExpiryOf, KeysOfNodes;
    PairStored(k1, k2, v, a, b, c, capacity);
    PairStored(k2, k1, v, b, c, c, capacity);
    cache := PutPair(capacity, k1, k2, v, start, a, b);
    PutQueuedLast(cache, k1, v, start, c);
    removed := StopsAtTop(cache, now);
  }

  /** The same for an earlier expiry: the node is queued again below itself, and stays below the top. */
  method EarlierExpiryHides<K(==), V>(capacity: nat, k1: K, k2: K, v: V, start: int, a: int, b: int, c: int, now: int)
    returns (cache: LRUCacheWithVariableTTL<K, V>, removed: nat)
    requires capacity >= 2 && k1 != k2 && start < c <= now < a <= b
    ensures fresh(cache) && cache.Valid() && cache.capacity == capacity && removed == 0
    ensures cache.Entries() == [Entry(k2, Slot(v, c, true)), Entry(k1, Slot(v, a, true))]
  {
    hide Apply, Find, Has, Heap, LiveQueued, Agree, ExpiryOf, KeysOfNodes;
    PairStored(k1, k2, v, a, b, b, capacity);
    PairStored(k1, k2, v, a, b, c, capacity);
    PairStored(k1, k2, v, a, c, c, capacity);
    cache := PutPair(capacity, k1, k2, v, start, a, b);
    PutQueuedLast(cache, k2, v, start, b);
    PutQueuedLast(cache, k2, v, start, c);
    removed := StopsAtTop(cache, now);
  }
}
