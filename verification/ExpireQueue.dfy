/** The priority queue of the cache with own expiries: a binary heap of references to nodes, compared by
    expiries that are read from the nodes and can change while the nodes are queued. */
module ExpireQueue {
  import opened LinkedMap

  datatype Slot<V> = Slot(value: V, expireTime: int, isValid: bool)

  // ---- Heaps of times ----

  function Parent(i: nat): nat
    requires i > 0
  {
    (i - 1) / 2
  }

  /** The element at `i` is not earlier than its parent. */
  ghost predicate InPlace(ts: seq<int>, i: nat)
    requires i < |ts|
  {
    i > 0 ==> ts[Parent(i)] <= ts[i]
  }

  ghost predicate Heap(ts: seq<int>) {
    forall i :: 0 <= i < |ts| ==> InPlace(ts, i)
  }

  /** A heap but for the element at `i`, which may have to rise. */
  ghost predicate Rising(ts: seq<int>, i: nat) {
    && i < |ts|
    && (forall j :: 0 <= j < |ts| && j != i ==> InPlace(ts, j))
    && (forall j :: 0 < j < |ts| && Parent(j) == i && i > 0 ==> ts[Parent(i)] <= ts[j])
  }

  /** A heap but for the element at `i`, which may have to sink. */
  ghost predicate Sinking(ts: seq<int>, i: nat) {
    && (forall j :: 0 < j < |ts| && Parent(j) != i ==> InPlace(ts, j))
    && (forall j :: 0 < j < |ts| && Parent(j) == i && i > 0 ==> ts[Parent(i)] <= ts[j])
  }

  function Swapped<T>(s: seq<T>, i: nat, j: nat): seq<T>
    requires i < |s| && j < |s|
  {
    s[i := s[j]][j := s[i]]
  }

  lemma Risen(ts: seq<int>, i: nat)
    requires Rising(ts, i) && i > 0 && ts[Parent(i)] > ts[i]
    ensures Rising(Swapped(ts, i, Parent(i)), Parent(i))
  {
    var p, us := Parent(i), Swapped(ts, i, Parent(i));
    assert InPlace(ts, p);
    forall j | 0 <= j < |us| && j != p ensures InPlace(us, j) {
      assert j != i ==> InPlace(ts, j);
    }
    forall j | 0 < j < |us| && Parent(j) == p && p > 0 ensures us[Parent(p)] <= us[j] {
      assert j != i ==> InPlace(ts, j);
    }
  }

  lemma AtTop(ts: seq<int>, i: nat)
    requires Rising(ts, i) && (i == 0 || ts[Parent(i)] <= ts[i])
    ensures Heap(ts)
  {
    assert InPlace(ts, i);
  }

  lemma Sunk(ts: seq<int>, i: nat, c: nat)
    requires Sinking(ts, i) && i < c < |ts| && Parent(c) == i && ts[c] < ts[i]
    requires forall j :: 0 < j < |ts| && Parent(j) == i ==> ts[c] <= ts[j]
    ensures Sinking(Swapped(ts, i, c), c)
  {
    var us := Swapped(ts, i, c);
    forall j | 0 < j < |us| && Parent(j) != c ensures InPlace(us, j) {
      assert Parent(j) != i ==> InPlace(ts, j);
    }
    forall j | 0 < j < |us| && Parent(j) == c ensures us[Parent(c)] <= us[j] {
      assert InPlace(ts, j);
    }
  }

  lemma AtBottom(ts: seq<int>, i: nat)
    requires Sinking(ts, i) && forall j :: 0 < j < |ts| && Parent(j) == i ==> ts[i] <= ts[j]
    ensures Heap(ts)
  {
    forall j | 0 <= j < |ts| ensures InPlace(ts, j) {
    }
  }

  /** The top of a heap is its earliest element. */
  lemma {:induction false} TopFirst(ts: seq<int>, i: nat)
    requires Heap(ts) && i < |ts|
    ensures ts[0] <= ts[i]
  {
    if i > 0 {
      assert InPlace(ts, i);
      TopFirst(ts, Parent(i));
    }
  }

  // ---- Queues of nodes ----

  /** The expiries of the queued nodes, marked or not. */
  ghost function Times<K, V>(queue: seq<Node<K, Slot<V>>>): (ts: seq<int>)
    reads queue
    ensures |ts| == |queue|
    ensures forall i :: 0 <= i < |queue| ==> ts[i] == queue[i].payload.expireTime
  {
    seq(|queue|, i requires 0 <= i < |queue| reads queue => queue[i].payload.expireTime)
  }

  ghost predicate Ordered<K, V>(queue: seq<Node<K, Slot<V>>>)
    reads queue
  {
    Heap(Times(queue))
  }

  /** A new element at the end is already in its place. */
  ghost predicate LastStays<K, V>(queue: seq<Node<K, Slot<V>>>, it: Node<K, Slot<V>>)
    reads queue, it
  {
    queue == [] || queue[(|queue| - 1) / 2].payload.expireTime <= it.payload.expireTime
  }

  ghost predicate Permuted<T>(s: seq<T>, t: seq<T>) {
    multiset(s) == multiset(t)
  }

  lemma PermutedSame<T>(s: seq<T>, t: seq<T>)
    requires Permuted(s, t)
    ensures |s| == |t| && forall x :: x in s <==> x in t
  {
    assert |multiset(s)| == |s| && |multiset(t)| == |t|;
    forall x ensures x in s <==> x in t {
      assert x in multiset(s) <==> x in multiset(t);
    }
  }

  method PushHeap<K, V>(queue: seq<Node<K, Slot<V>>>, it: Node<K, Slot<V>>) returns (q: seq<Node<K, Slot<V>>>)
    ensures multiset(q) == multiset(queue) + multiset{it} && |q| == |queue| + 1
    ensures forall n :: n in q <==> n in queue || n == it
    ensures Ordered(queue) ==> Ordered(q)
    ensures LastStays(queue, it) ==> q == queue + [it]
  {
    hide Heap, Rising, InPlace, Times, Permuted;
    q := queue + [it];
    PermutedItself(q);
    var i := |queue|;
    if Ordered(queue) { StartRising(queue, it); }
    while i > 0 && q[(i - 1) / 2].payload.expireTime > q[i].payload.expireTime
      invariant 0 <= i < |q| == |queue| + 1 && Permuted(q, queue + [it])
      invariant Ordered(queue) ==> Rising(Times(q), i)
      invariant LastStays(queue, it) ==> q == queue + [it] && i == |queue|
    {
      var p := (i - 1) / 2;
      SwappedSame(q, i, p, queue + [it]);
      if Ordered(queue) {
        SwappedTimes(q, i, p);
        Risen(Times(q), i);
      }
      q := Swapped(q, i, p);
      i := p;
    }
    if Ordered(queue) { AtTop(Times(q), i); }
    OneMore(queue, it, q);
  }

  lemma PermutedItself<T>(s: seq<T>)
    ensures Permuted(s, s)
  {
  }

  lemma OneMore<T>(s: seq<T>, x: T, t: seq<T>)
    requires Permuted(t, s + [x])
    ensures multiset(t) == multiset(s) + multiset{x} && forall y :: y in t <==> y in s || y == x
  {
    PermutedSame(t, s + [x]);
  }

  lemma StartRising<K, V>(queue: seq<Node<K, Slot<V>>>, it: Node<K, Slot<V>>)
    requires Ordered(queue)
    ensures Rising(Times(queue + [it]), |queue|)
  {
    var ts := Times(queue + [it]);
    forall j | 0 <= j < |ts| && j != |queue| ensures InPlace(ts, j) {
      assert InPlace(Times(queue), j);
    }
  }

  lemma SwappedSame<T>(s: seq<T>, i: nat, j: nat, t: seq<T>)
    requires i < |s| && j < |s| && Permuted(s, t)
    ensures Permuted(Swapped(s, i, j), t)
  {
  }

  lemma SwappedTimes<K, V>(queue: seq<Node<K, Slot<V>>>, i: nat, j: nat)
    requires i < |queue| && j < |queue|
    ensures Times(Swapped(queue, i, j)) == Swapped(Times(queue), i, j)
  {
  }

  /** Takes the top off: the last element takes its place and sinks. */
  method PopHeap<K, V>(queue: seq<Node<K, Slot<V>>>) returns (q: seq<Node<K, Slot<V>>>)
    requires queue != []
    ensures multiset(q) == multiset(queue) - multiset{queue[0]} && |q| == |queue| - 1
    ensures forall n :: n in queue <==> n in q || n == queue[0]
    ensures Ordered(queue) ==> Ordered(q)
  {
    hide Heap, Sinking, InPlace, Times, Permuted, Ordered;
    var last := queue[|queue| - 1];
    q := queue[..|queue| - 1];
    if q == [] {
      NothingOrdered(q);
      assert queue == [last];
      return;
    }
    LastOnTop(queue);
    ghost var rest := queue[1..|queue| - 1];
    q := SinkTop(q[0 := last]);
    TopLeaves(queue[0], rest, last, q);
    assert queue == [queue[0]] + rest + [last];
  }

  method SinkTop<K, V>(queue: seq<Node<K, Slot<V>>>) returns (q: seq<Node<K, Slot<V>>>)
    requires queue != []
    ensures Permuted(q, queue) && (Sinking(Times(queue), 0) ==> Ordered(q))
  {
    hide Heap, Sinking, InPlace, Times, Permuted;
    q := queue;
    PermutedItself(q);
    var i := 0;
    while 2 * i + 1 < |q|
      invariant i < |q| == |queue| && Permuted(q, queue)
      invariant Sinking(Times(queue), 0) ==> Sinking(Times(q), i)
      decreases |q| - i
    {
      var c := 2 * i + 1;
      if c + 1 < |q| && q[c + 1].payload.expireTime < q[c].payload.expireTime { c := c + 1; }
      Children(q, i, c);
      if q[c].payload.expireTime >= q[i].payload.expireTime {
        if Sinking(Times(queue), 0) { AtBottom(Times(q), i); }
        return;
      }
      SwappedSame(q, i, c, queue);
      if Sinking(Times(queue), 0) {
        SwappedTimes(q, i, c);
        Sunk(Times(q), i, c);
      }
      q := Swapped(q, i, c);
      i := c;
    }
    if Sinking(Times(queue), 0) { AtBottom(Times(q), i); }
  }

  lemma NothingOrdered<K, V>(queue: seq<Node<K, Slot<V>>>)
    ensures queue == [] ==> Ordered(queue)
  {
  }

  /** The earlier of the children, whether there are one or two. */
  lemma Children<K, V>(q: seq<Node<K, Slot<V>>>, i: nat, c: nat)
    requires c < |q| && (c == 2 * i + 1 || c == 2 * i + 2)
    requires 2 * i + 1 < |q| && q[c].payload.expireTime <= q[2 * i + 1].payload.expireTime
    requires 2 * i + 2 < |q| ==> q[c].payload.expireTime <= q[2 * i + 2].payload.expireTime
    ensures forall j :: 0 < j < |q| && Parent(j) == i ==> Times(q)[c] <= Times(q)[j]
    ensures Parent(c) == i && Times(q)[c] == q[c].payload.expireTime && Times(q)[i] == q[i].payload.expireTime
  {
  }

  /** The last element on top, in whatever order the rest then stands. */
  lemma TopLeaves<T>(top: T, rest: seq<T>, last: T, q: seq<T>)
    requires Permuted(q, [last] + rest)
    ensures var queue := [top] + rest + [last];
            && multiset(q) == multiset(queue) - multiset{top} && |q| == |queue| - 1
            && forall x :: x in queue <==> x in q || x == top
  {
    PermutedSame(q, [last] + rest);
  }

  lemma LastOnTop<K, V>(queue: seq<Node<K, Slot<V>>>)
    requires |queue| > 1
    ensures var q := queue[..|queue| - 1][0 := queue[|queue| - 1]];
            && q == [queue[|queue| - 1]] + queue[1..|queue| - 1]
            && (Ordered(queue) ==> Sinking(Times(q), 0))
  {
    var q := queue[..|queue| - 1][0 := queue[|queue| - 1]];
    if Ordered(queue) {
      forall j | 0 < j < |q| && Parent(j) != 0 ensures InPlace(Times(q), j) {
        assert InPlace(Times(queue), j);
      }
    }
  }

  /** The top of an ordered queue expires first. */
  lemma TopExpiresFirst<K, V>(queue: seq<Node<K, Slot<V>>>)
    requires Ordered(queue) && queue != []
    ensures forall n :: n in queue ==> queue[0].payload.expireTime <= n.payload.expireTime
  {
    hide Heap;
    forall n | n in queue ensures queue[0].payload.expireTime <= n.payload.expireTime {
      var i :| 0 <= i < |queue| && queue[i] == n;
      TopFirst(Times(queue), i);
    }
  }
}
