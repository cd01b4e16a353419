/** The cache whose entries all live for the same time.  Every reading of the clock is an argument. */
module FixedTtlLru {
  import opened Wrappers
  import opened Recency
  import opened LinkedMap

  datatype Stamped<V> = Stamped(value: V, expireTime: int)

  type Contents<K, V> = seq<Entry<K, Stamped<V>>>

  datatype Op<K, V> =
    | GetOp(key: K, now: int)
    | PutOp(key: K, value: V, now: int)
    | RemoveOp(key: K)
    | CleanupOp(clock: nat -> int)

  /** Entry by entry, each against its own reading of the clock, the keys found expired. */
  function ExpiredKeys<K, V>(s: Contents<K, V>, clock: nat -> int): seq<K>
  {
    if s == [] then []
    else
      var n := |s| - 1;
      var before := ExpiredKeys(s[..n], clock);
      if clock(n) >= s[n].payload.expireTime then before + [s[n].key] else before
  }

  function GetResult<K(==), V>(s: Contents<K, V>, k: K, now: int): Option<V> {
    var i := Find(s, k);
    if i < |s| && now < s[i].payload.expireTime then Some(s[i].payload.value) else None
  }

  /** What one operation does to the list. */
  function Events<K(==), V>(s: Contents<K, V>, op: Op<K, V>, ttl: nat): seq<Event<K, Stamped<V>>>
  {
    match op
    case GetOp(k, now) => if !Has(s, k) then [] else if GetResult(s, k, now).Some? then [Touch(k)] else [Drop(k)]
    case PutOp(k, v, now) => [Store(k, Stamped(v, now + ttl))]
    case RemoveOp(k) => [Drop(k)]
    case CleanupOp(clock) => Drops(ExpiredKeys(s, clock))
  }

  class LRUCacheWithFixedTTL<K(==), V> {
    const capacity: nat
    const ttl: nat
    var cacheList: seq<Node<K, Stamped<V>>>
    var cacheMap: map<K, Node<K, Stamped<V>>>

    ghost predicate Valid()
      reads this
    {
      capacity >= 1 && ttl >= 1 && |cacheList| <= capacity && Agree(cacheList, cacheMap)
    }

    ghost function Entries(): Contents<K, V>
      reads this, cacheList
    {
      LinkedMap.Entries(cacheList)
    }

    ghost function Nodes(): set<Node<K, Stamped<V>>>
      reads this
    {
      set i | 0 <= i < |cacheList| :: cacheList[i]
    }

    lemma ValidDistinct()
      requires Valid()
      ensures Distinct(Entries())
    {
    }

    constructor (capacity: nat, ttlMs: nat)
      requires capacity > 0 && ttlMs > 0
      ensures Valid() && this.capacity == capacity && ttl == ttlMs && Entries() == []
    {
      this.capacity := capacity;
      ttl := ttlMs;
      cacheList := [];
      cacheMap := map[];
    }

    method MoveToFront(it: Node<K, Stamped<V>>)
      requires Valid() && it in cacheList
      modifies this`cacheList
      ensures Valid() && Nodes() == old(Nodes())
      ensures Entries() == Apply(old(Entries()), Touch(it.key), capacity)
    {
      hide Find, Apply;
      SpliceAgrees(cacheList, cacheMap, it.key, capacity);
      cacheList := Spliced(cacheList, it);
    }

    method EvictLRU()
      requires Valid()
      modifies this
      ensures Valid() && Entries() == old(Entries())[..if |old(Entries())| == 0 then 0 else |old(Entries())| - 1]
      ensures cacheMap.Keys <= old(cacheMap.Keys) && Nodes() <= old(Nodes())
    {
      if cacheList == [] { return; }
      hide Agree;
      var lruNode := cacheList[|cacheList| - 1];
      EvictAgrees(cacheList, cacheMap);
      cacheMap := cacheMap - {lruNode.key};
      cacheList := cacheList[..|cacheList| - 1];
    }

    method RemoveNode(it: Node<K, Stamped<V>>)
      requires Valid() && it in cacheList
      modifies this
      ensures Valid() && cacheList == Erased(old(cacheList), it) && Nodes() <= old(Nodes())
      ensures Entries() == Apply(old(Entries()), Drop(it.key), capacity)
    {
      EraseAgrees(cacheList, cacheMap, it.key, capacity);
      cacheMap := cacheMap - {it.key};
      cacheList := Erased(cacheList, it);
    }

    method Get(key: K, now: int) returns (r: Option<V>)
      requires Valid()
      modifies this
      ensures Valid() && Nodes() <= old(Nodes())
      ensures r == GetResult(old(Entries()), key, now)
      ensures Entries() == Apply(old(Entries()), if r.Some? then Touch(key) else Drop(key), capacity)
      ensures Entries() == ApplyAll(old(Entries()), Events(old(Entries()), GetOp(key, now), ttl), capacity)
    {
      AgreeFind(cacheList, cacheMap, key);
      if key !in cacheMap { return None; }
      var it := cacheMap[key];
      if now >= it.payload.expireTime {
        RemoveNode(it);
        return None;
      }
      MoveToFront(it);
      return Some(it.payload.value);
    }

    method Put(key: K, value: V, now: int)
      requires Valid()
      modifies this, Nodes()
      ensures Valid() && fresh(Nodes() - old(Nodes()))
      ensures Entries() == Apply(old(Entries()), Store(key, Stamped(value, now + ttl)), capacity)
    {
      var stamped := Stamped(value, now + ttl);
      if key in cacheMap {
        Update(cacheMap[key], stamped);
      } else {
        ghost var before := Entries();
        AgreeFind(cacheList, cacheMap, key);
        if |cacheList| >= capacity {
          EvictLRU();
        }
        assert Entries() == Evicted(before, capacity);
        EmplaceFront(key, stamped);
      }
    }

    method EmplaceFront(key: K, stamped: Stamped<V>)
      requires Valid() && key !in cacheMap && |cacheList| < capacity
      modifies this
      ensures Valid() && fresh(Nodes() - old(Nodes()))
      ensures Entries() == [Entry(key, stamped)] + old(Entries())
    {
      ghost var before := Entries();
      var node := new Node(key, stamped);
      assert LinkedMap.Entries(cacheList) == before;
      LinkAgrees(cacheList, cacheMap, node);
      cacheList := [node] + cacheList;
      cacheMap := cacheMap[key := node];
    }

    method Update(it: Node<K, Stamped<V>>, stamped: Stamped<V>)
      requires Valid() && it in cacheList
      modifies this`cacheList, it
      ensures Valid() && Nodes() == old(Nodes())
      ensures Entries() == Apply(old(Entries()), Store(it.key, stamped), capacity)
    {
      ghost var before := Entries();
      ghost var i := Position(cacheList, it);
      AgreeFind(cacheList, cacheMap, it.key);
      it.payload := stamped;
      assert Entries() == before[i := Entry(it.key, stamped)];
      UpdateThenTouch(before, i, stamped, capacity);
      MoveToFront(it);
    }

    method Remove(key: K) returns (found: bool)
      requires Valid()
      modifies this
      ensures Valid() && found == Has(old(Entries()), key)
      ensures Entries() == Apply(old(Entries()), Drop(key), capacity)
    {
      AgreeFind(cacheList, cacheMap, key);
      if key !in cacheMap { return false; }
      RemoveNode(cacheMap[key]);
      return true;
    }

    /** One turn of the cleanup loop: the node under the iterator is erased when it is expired, and
        the iterator then already stands on the next one; otherwise it advances. */
    method CleanupTurn(it: nat, now: int, ghost before: Contents<K, V>, ghost n: nat, ghost clock: nat -> int)
        returns (it': nat, removed: bool)
      requires Valid() && it < |cacheList| && now == clock(n) && Distinct(before)
      requires Midway(Entries(), it, before, n, clock)
      modifies this
      ensures Valid() && Nodes() <= old(Nodes()) && it' <= |cacheList|
      ensures Midway(Entries(), it', before, n + 1, clock)
      ensures it' == if removed then it else it + 1
    {
      var node := cacheList[it];
      CleanupStep(before, n, clock);
      assert Entries()[it] == before[n];
      if now >= node.payload.expireTime {
        RemoveNode(node);
        it', removed := it, true;
      } else {
        it', removed := it + 1, false;
      }
    }

    /** The list is walked and nodes are erased from it in the same loop.  `clock(n)` is the time read
        for the n-th node. */
    method CleanupExpired(clock: nat -> int) returns (removedCount: nat)
      requires Valid()
      modifies this
      ensures Valid() && Nodes() <= old(Nodes())
      ensures Entries() == Survivors(old(Entries()), clock)
      ensures removedCount == |old(Entries())| - |Entries()|
    {
      hide Agree, Midway, Find, Survivors, Distinct;
      ghost var before := Entries();
      ValidDistinct();
      removedCount := 0;
      MidwayBounds(before, before, clock);
      var it, n := 0, 0;
      while it < |cacheList|
        invariant Valid() && Nodes() <= old(Nodes()) && it <= |cacheList|
        invariant Midway(Entries(), it, before, n, clock)
        invariant removedCount == n - it && n + |cacheList| == |before| + it
      {
        var removed;
        it, removed := CleanupTurn(it, clock(n), before, n, clock);
        removedCount := removedCount + if removed then 1 else 0;
        n := n + 1;
      }
      MidwayBounds(before, Entries(), clock);
    }
  }

  /** The contents `cur` when a cleanup of `before` has passed `n` of its entries. */
  ghost predicate Midway<K, V>(cur: Contents<K, V>, it: nat, before: Contents<K, V>, n: nat, clock: nat -> int) {
    n <= |before| && it == |Survivors(before[..n], clock)| && cur == Survivors(before[..n], clock) + before[n..]
  }

  lemma MidwayBounds<K, V>(before: Contents<K, V>, cur: Contents<K, V>, clock: nat -> int)
    ensures Midway(before, 0, before, 0, clock)
    ensures Midway(cur, |cur|, before, |before|, clock) ==> cur == Survivors(before, clock)
  {
    assert before[..|before|] == before && before[0..] == before;
  }

  /** The entries a cleanup keeps, in their order. */
  function Survivors<K, V>(s: Contents<K, V>, clock: nat -> int): (r: Contents<K, V>)
  {
    if s == [] then []
    else
      var n := |s| - 1;
      var before := Survivors(s[..n], clock);
      if clock(n) >= s[n].payload.expireTime then before else before + [s[n]]
  }

  /** Each survivor stood in `s` at the position `From` gives, in the same order, unexpired when read. */
  lemma {:induction false} SurvivorsFrom<K, V>(s: Contents<K, V>, clock: nat -> int) returns (from: seq<nat>)
    ensures StoodAt(Survivors(s, clock), s, clock, from) && AllStood(s, clock, from)
  {
    hide StoodAt;
    if s == [] {
      from := [];
      NoneStood(s, clock);
    } else {
      var n := |s| - 1;
      from := SurvivorsFrom(s[..n], clock);
      StoodNext(Survivors(s[..n], clock), s, clock, from);
      if clock(n) < s[n].payload.expireTime {
        from := from + [n];
      }
    }
  }

  ghost predicate StoodAt<K, V>(kept: Contents<K, V>, s: Contents<K, V>, clock: nat -> int, from: seq<nat>) {
    && |from| == |kept| <= |s|
    && (forall i :: 0 <= i < |from| ==> from[i] < |s| && kept[i] == s[from[i]])
    && (forall i :: 0 <= i < |from| ==> clock(from[i]) < s[from[i]].payload.expireTime)
    && (forall i, j :: 0 <= i < j < |from| ==> from[i] < from[j])
  }

  /** Every entry that was unexpired when read is among them. */
  ghost predicate AllStood<K, V>(s: Contents<K, V>, clock: nat -> int, from: seq<nat>) {
    forall n :: 0 <= n < |s| && clock(n) < s[n].payload.expireTime ==> n in from
  }

  lemma NoneStood<K, V>(s: Contents<K, V>, clock: nat -> int)
    requires s == []
    ensures StoodAt(Survivors(s, clock), s, clock, [])
  {
  }

  lemma StoodNext<K, V>(kept: Contents<K, V>, s: Contents<K, V>, clock: nat -> int, from: seq<nat>)
    requires s != [] && StoodAt(kept, s[..|s| - 1], clock, from)
    ensures StoodAt(kept, s, clock, from)
    ensures var n := |s| - 1;
            clock(n) < s[n].payload.expireTime ==> StoodAt(kept + [s[n]], s, clock, from + [n])
  {
    var n, init := |s| - 1, s[..|s| - 1];
    forall i | 0 <= i < |from| ensures from[i] < n && kept[i] == s[from[i]] {
      assert init[from[i]] == s[from[i]];
    }
  }

  /** One turn of the cleanup loop, at the n-th entry of the list it started from. */
  lemma CleanupStep<K, V>(before: Contents<K, V>, n: nat, clock: nat -> int)
    requires n < |before| && Distinct(before)
    ensures var kept := Survivors(before[..n], clock);
            var cur := kept + before[n..];
            var kept' := Survivors(before[..n + 1], clock);
            if clock(n) >= before[n].payload.expireTime
            then kept' == kept && Without(cur, before[n].key) == kept + before[n + 1..]
            else kept' == kept + [before[n]] && cur == kept' + before[n + 1..]
  {
    hide AllStood, Find;
    var kept := Survivors(before[..n], clock);
    assert before[..n + 1][..n] == before[..n];
    if clock(n) >= before[n].payload.expireTime {
      var from := SurvivorsFrom(before[..n], clock);
      FindAfter(before, n, kept, before[n..], from);
    }
  }

  lemma {:induction false} SurvivorsAreDrops<K, V>(front: Contents<K, V>, rest: Contents<K, V>, clock: nat -> int,
                                                   capacity: nat)
    requires Distinct(front + rest)
    ensures ApplyAll(front + rest, Drops(ExpiredKeys(front, clock)), capacity) == Survivors(front, clock) + rest
    ensures |Survivors(front, clock)| + |ExpiredKeys(front, clock)| == |front|
  {
    hide Find, Distinct, Apply, AllStood;
    if front != [] {
      var n := |front| - 1;
      var e := front[n];
      var kept := Survivors(front[..n], clock);
      assert front + rest == front[..n] + ([e] + rest);
      SurvivorsAreDrops(front[..n], [e] + rest, clock, capacity);
      if clock(n) >= e.payload.expireTime {
        var all := Drops<K, Stamped<V>>(ExpiredKeys(front, clock));
        assert all[..|all| - 1] == Drops<K, Stamped<V>>(ExpiredKeys(front[..n], clock));
        var from := SurvivorsFrom(front[..n], clock);
        DropAfter(front + rest, n, kept, e, rest, from, capacity);
      } else {
        assert kept + ([e] + rest) == (kept + [e]) + rest;
      }
    } else {
      assert front + rest == rest;
    }
  }

  lemma DropAfter<K, V>(s: Contents<K, V>, n: nat, kept: Contents<K, V>, e: Entry<K, Stamped<V>>,
                        rest: Contents<K, V>, from: seq<nat>, capacity: nat)
    requires Distinct(s) && n < |s| && e == s[n]
    requires |from| == |kept| && forall i :: 0 <= i < |from| ==> from[i] < n && kept[i] == s[from[i]]
    ensures Apply(kept + ([e] + rest), Drop(e.key), capacity) == kept + rest
  {
    var t := kept + ([e] + rest);
    FindAfter(s, n, kept, [e] + rest, from);
    assert t[..|kept|] == kept && t[|kept| + 1..] == rest;
  }

  lemma FindAfter<K, V>(s: Contents<K, V>, n: nat, kept: Contents<K, V>, rest: Contents<K, V>, from: seq<nat>)
    requires Distinct(s) && n < |s| && rest != [] && rest[0] == s[n]
    requires |from| == |kept| && forall i :: 0 <= i < |from| ==> from[i] < n && kept[i] == s[from[i]]
    ensures Find(kept + rest, s[n].key) == |kept|
  {
    var t := kept + rest;
    assert t[|kept|].key == s[n].key;
    var f := Find(t, s[n].key);
    assert forall j :: 0 <= j < |kept| ==> t[j] == s[from[j]];
  }

  /** With a clock that never goes back, a cleanup keeps nothing that was expired when it started, and
      takes nothing that is still alive when it ends. */
  lemma CleanupExact<K, V>(s: Contents<K, V>, clock: nat -> int)
    requires 0 < |s| && forall i: nat, j: nat :: i <= j ==> clock(i) <= clock(j)
    ensures forall e :: e in Survivors(s, clock) ==> e in s && clock(0) < e.payload.expireTime
    ensures forall e :: e in s && clock(|s| - 1) < e.payload.expireTime ==> e in Survivors(s, clock)
  {
    var from := SurvivorsFrom(s, clock);
    forall i | 0 <= i < |s| && clock(|s| - 1) < s[i].payload.expireTime ensures s[i] in Survivors(s, clock) {
      AliveSurvives(s, clock, i);
    }
  }

  lemma {:induction false} AliveSurvives<K, V>(s: Contents<K, V>, clock: nat -> int, i: nat)
    requires i < |s| && clock(i) < s[i].payload.expireTime
    ensures s[i] in Survivors(s, clock)
  {
    if i < |s| - 1 {
      AliveSurvives(s[..|s| - 1], clock, i);
    }
  }

  /** A cleanup is a run of drops, one for each key found expired. */
  lemma CleanupEvents<K, V>(s: Contents<K, V>, clock: nat -> int, ttl: nat, capacity: nat)
    requires Distinct(s)
    ensures Survivors(s, clock) == ApplyAll(s, Events(s, CleanupOp(clock), ttl), capacity)
    ensures |Survivors(s, clock)| + |ExpiredKeys(s, clock)| == |s|
  {
    assert s + [] == s && Survivors(s, clock) + [] == Survivors(s, clock);
    SurvivorsAreDrops(s, [], clock, capacity);
  }

  // ---- Whole runs ----

  /** The events that a run of operations performs on an initially empty cache. */
  function History<K(==), V>(ops: seq<Op<K, V>>, capacity: nat, ttl: nat): seq<Event<K, Stamped<V>>> {
    if |ops| == 0 then []
    else
      var before := History(ops[..|ops| - 1], capacity, ttl);
      before + Events(Run(before, capacity), ops[|ops| - 1], ttl)
  }

  /** The list after the run. */
  function State<K(==), V>(ops: seq<Op<K, V>>, capacity: nat, ttl: nat): Contents<K, V> {
    Run(History(ops, capacity, ttl), capacity)
  }

  /** The clock never goes back, and none of its readings is later than `now`. */
  ghost predicate Ordered<K, V>(ops: seq<Op<K, V>>, now: int) {
    if |ops| == 0 then true
    else
      var init := ops[..|ops| - 1];
      match ops[|ops| - 1]
      case GetOp(_, t) => t <= now && Ordered(init, t)
      case PutOp(_, _, t) => t <= now && Ordered(init, t)
      case RemoveOp(_) => Ordered(init, now)
      case CleanupOp(clock) =>
        && (forall i: nat, j: nat :: i <= j ==> clock(i) <= clock(j))
        && (forall i: nat :: clock(i) <= now)
        && Ordered(init, clock(0))
  }

  /** The value and time of the last put of `k`, unless `k` was removed after it. */
  function LastPut<K(==), V>(ops: seq<Op<K, V>>, k: K): Option<(V, int)> {
    if |ops| == 0 then None
    else
      var before := LastPut(ops[..|ops| - 1], k);
      match ops[|ops| - 1]
      case PutOp(j, v, t) => if j == k then Some((v, t)) else before
      case RemoveOp(j) => if j == k then None else before
      case _ => before
  }

  /** The distinct other keys put, or hit by a get, since `k` was last put or hit. */
  ghost function OthersUsed<K, V>(ops: seq<Op<K, V>>, k: K, capacity: nat, ttl: nat): set<K> {
    if |ops| == 0 then {}
    else
      var init := ops[..|ops| - 1];
      var before := OthersUsed(init, k, capacity, ttl);
      match ops[|ops| - 1]
      case GetOp(j, t) =>
        if GetResult(State(init, capacity, ttl), j, t).None? then before
        else if j == k then {} else before + {j}
      case PutOp(j, _, _) => if j == k then {} else before + {j}
      case _ => before
  }

  // ---- What one operation adds to the history ----

  lemma StepStore<K, V>(before: seq<Event<K, Stamped<V>>>, op: Op<K, V>, k: K, capacity: nat, ttl: nat)
    ensures var s := Run(before, capacity);
            LastStore(before + Events(s, op, ttl), k)
            == match op
               case GetOp(j, t) =>
                 if j == k && Has(s, k) && GetResult(s, k, t).None? then None else LastStore(before, k)
               case PutOp(j, v, t) => if j == k then Some(Stamped(v, t + ttl)) else LastStore(before, k)
               case RemoveOp(j) => if j == k then None else LastStore(before, k)
               case CleanupOp(clock) => if k in ExpiredKeys(s, clock) then None else LastStore(before, k)
  {
    var s := Run(before, capacity);
    if op.CleanupOp? {
      DropsInHistory(before, ExpiredKeys(s, op.clock), k, capacity);
    } else {
      var es := Events(s, op, ttl);
      assert before + [] == before;
      if |es| > 0 { OneEvent(before, es[0]); }
    }
  }

  lemma StepUsed<K, V>(before: seq<Event<K, Stamped<V>>>, op: Op<K, V>, k: K, capacity: nat, ttl: nat)
    ensures var s := Run(before, capacity);
            UsedSince(before + Events(s, op, ttl), k, capacity)
            == if op.PutOp? || (op.GetOp? && GetResult(s, op.key, op.now).Some?)
               then (if op.key == k then {} else UsedSince(before, k, capacity) + {op.key})
               else UsedSince(before, k, capacity)
  {
    var s := Run(before, capacity);
    if op.CleanupOp? {
      DropsInHistory(before, ExpiredKeys(s, op.clock), k, capacity);
    } else {
      var es := Events(s, op, ttl);
      assert before + [] == before;
      if |es| > 0 { OneEvent(before, es[0]); }
    }
  }

  lemma {:induction false} ExpiredKey<K, V>(s: Contents<K, V>, clock: nat -> int, k: K) returns (i: nat)
    requires k in ExpiredKeys(s, clock)
    ensures i < |s| && s[i].key == k && s[i].payload.expireTime <= clock(i)
  {
    var n := |s| - 1;
    if s[n].key == k && s[n].payload.expireTime <= clock(n) {
      i := n;
    } else {
      i := ExpiredKey(s[..n], clock, k);
    }
  }

  // ---- The history against the operations ----

  /** The list holds only what was really put, stamped with its own expiry. */
  lemma {:induction false} StoredIsPut<K, V>(ops: seq<Op<K, V>>, k: K, capacity: nat, ttl: nat)
    requires LastStore(History(ops, capacity, ttl), k).Some?
    ensures var p := LastStore(History(ops, capacity, ttl), k).value;
            LastPut(ops, k) == Some((p.value, p.expireTime - ttl))
  {
    hide Run, Events, ExpiredKeys, GetResult, Find;
    var init := ops[..|ops| - 1];
    var op := ops[|ops| - 1];
    StepStore(History(init, capacity, ttl), op, k, capacity, ttl);
    if !(op.PutOp? && op.key == k) {
      StoredIsPut(init, k, capacity, ttl);
    }
  }

  /** No reading of the clock that the operation makes is later than `now`. */
  ghost predicate ReadsBy<K, V>(op: Op<K, V>, now: int) {
    (op.GetOp? ==> op.now <= now) && (op.CleanupOp? ==> forall i: nat :: op.clock(i) <= now)
  }

  /** An operation on other keys, or a get or cleanup before the expiry, leaves what is stored. */
  lemma StepKeeps<K, V>(before: seq<Event<K, Stamped<V>>>, op: Op<K, V>, k: K, now: int, capacity: nat, ttl: nat)
    requires capacity >= 1 && ReadsBy(op, now)
    requires LastStore(before, k).Some? && now < LastStore(before, k).value.expireTime
    requires (op.PutOp? || op.RemoveOp?) ==> op.key != k
    ensures LastStore(before + Events(Run(before, capacity), op, ttl), k) == LastStore(before, k)
  {
    var s := Run(before, capacity);
    StepStore(before, op, k, capacity, ttl);
    if op.CleanupOp? && k in ExpiredKeys(s, op.clock) {
      var i := ExpiredKey(s, op.clock, k);
      StoredEntry(before, capacity, i);
    } else if op.GetOp? && Has(s, k) {
      StoredEntry(before, capacity, Find(s, k));
    }
  }

  /** What was put and not removed stays stored as long as it is not expired. */
  lemma {:induction false} PutStaysStored<K, V>(ops: seq<Op<K, V>>, k: K, now: int, capacity: nat, ttl: nat)
    requires capacity >= 1 && Ordered(ops, now)
    requires LastPut(ops, k).Some? && now < LastPut(ops, k).value.1 + ttl
    ensures var (v, t) := LastPut(ops, k).value;
            LastStore(History(ops, capacity, ttl), k) == Some(Stamped(v, t + ttl))
  {
    hide LastStore, Run, Events, ExpiredKeys, GetResult, Find;
    var init := ops[..|ops| - 1];
    var op := ops[|ops| - 1];
    var before := History(init, capacity, ttl);
    if op.PutOp? && op.key == k {
      StepStore(before, op, k, capacity, ttl);
    } else {
      var earlier := match op case GetOp(_, t) => t case PutOp(_, _, t) => t
                              case RemoveOp(_) => now case CleanupOp(clock) => clock(0);
      PutStaysStored(init, k, earlier, capacity, ttl);
      StepKeeps(before, op, k, now, capacity, ttl);
    }
  }

  lemma {:induction false} OthersUsedAre<K, V>(ops: seq<Op<K, V>>, k: K, capacity: nat, ttl: nat)
    ensures UsedSince(History(ops, capacity, ttl), k, capacity) == OthersUsed(ops, k, capacity, ttl)
  {
    if |ops| > 0 {
      var init := ops[..|ops| - 1];
      OthersUsedAre(init, k, capacity, ttl);
      StepUsed(History(init, capacity, ttl), ops[|ops| - 1], k, capacity, ttl);
    }
  }

  /** A get returns only the latest value put under the key, put less than the time to live ago and
      not removed since. */
  lemma GetIsFresh<K, V>(ops: seq<Op<K, V>>, k: K, now: int, capacity: nat, ttl: nat)
    requires capacity >= 1 && GetResult(State(ops, capacity, ttl), k, now).Some?
    ensures LastPut(ops, k).Some?
    ensures var (v, t) := LastPut(ops, k).value;
            GetResult(State(ops, capacity, ttl), k, now) == Some(v) && now < t + ttl
  {
    KeptIsLatest(History(ops, capacity, ttl), capacity, k);
    StoredIsPut(ops, k, capacity, ttl);
  }

  /** Conversely, a value put less than the time to live ago and not removed is found, as long as fewer
      than `capacity` distinct other keys were put or hit since its key was. */
  lemma GetFindsFresh<K, V>(ops: seq<Op<K, V>>, k: K, now: int, capacity: nat, ttl: nat)
    requires capacity >= 1 && Ordered(ops, now)
    requires LastPut(ops, k).Some? && now < LastPut(ops, k).value.1 + ttl
    requires |OthersUsed(ops, k, capacity, ttl)| < capacity
    ensures GetResult(State(ops, capacity, ttl), k, now) == Some(LastPut(ops, k).value.0)
  {
    PutStaysStored(ops, k, now, capacity, ttl);
    OthersUsedAre(ops, k, capacity, ttl);
    Retention(History(ops, capacity, ttl), capacity, k);
    KeptIsLatest(History(ops, capacity, ttl), capacity, k);
  }
}
