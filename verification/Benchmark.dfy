/** The benchmark run over a cache: warm-up, then a lookup of every key with a put on a miss. */
module Benchmark {
  import opened Recency
  import opened StandardLru
  import Paging

  datatype BenchmarkResult = BenchmarkResult(operations: nat, hits: nat, misses: nat)

  ghost function KeyList<K, P>(s: seq<Entry<K, P>>): (r: seq<K>)
    ensures |r| == |s| && forall i :: 0 <= i < |s| ==> r[i] == s[i].key
  {
    seq(|s|, i requires 0 <= i < |s| => s[i].key)
  }

  /** The keys `n - 1, ..., 0`: what the warm-up leaves in a cache of size `n`. */
  function Down(n: nat): (s: seq<int>)
    ensures |s| == n && forall i :: 0 <= i < n ==> s[i] == n - 1 - i
  {
    if n == 0 then [] else [n - 1] + Down(n - 1)
  }

  lemma KeyListMinus<K(!new), P>(s: seq<Entry<K, P>>, k: K)
    requires Distinct(s)
    ensures KeyList(Without(s, k)) == Paging.Minus(KeyList(s), k)
  {
    hide Paging.Minus;
    var i := Find(s, k);
    var l := KeyList(s);
    KeyListHas(s, k);
    if i < |s| {
      Paging.MinusSplit(l, k, i);
      assert k !in l[..i] && k !in l[i + 1..];
      Paging.MinusIn(l[..i], k);
      Paging.MinusIn(l[i + 1..], k);
      Paging.MinusCons(k, l[i + 1..], k);
      assert l[i..] == [k] + l[i + 1..];
      assert KeyList(Without(s, k)) == l[..i] + l[i + 1..];
    } else {
      Paging.MinusIn(l, k);
    }
  }

  lemma KeyListHas<K, P>(s: seq<Entry<K, P>>, k: K)
    ensures Has(s, k) <==> k in KeyList(s)
  {
    if Has(s, k) { assert KeyList(s)[Find(s, k)] == k; }
  }

  /** On the keys, a hit and a put on a miss are the two halves of one access. */
  lemma KeyListApply<K(!new), P>(s: seq<Entry<K, P>>, k: K, p: P, capacity: nat)
    requires Distinct(s)
    ensures KeyList(if Has(s, k) then Apply(s, Touch(k), capacity) else Apply(s, Store(k, p), capacity))
            == Paging.Access(KeyList(s), k, capacity)
  {
    hide Find, Paging.Minus;
    KeyListHas(s, k);
    KeyListMinus(s, k);
    if Has(s, k) {
      var t := Apply(s, Touch(k), capacity);
      assert KeyList(t) == [k] + KeyList(Without(s, k));
    } else {
      assert KeyList(Apply(s, Store(k, p), capacity)) == [k] + KeyList(Evicted(s, capacity));
    }
  }

  lemma TouchMiss<K, P>(s: seq<Entry<K, P>>, k: K, capacity: nat)
    ensures !Has(s, k) ==> Apply(s, Touch(k), capacity) == s
  {
    hide Find;
  }

  /** The keys in the cache, most recently used first. */
  ghost function CachedKeys(cache: LRUCache<int, int>): seq<int>
    reads cache, cache.cacheList
  {
    KeyList(cache.Contents())
  }

  /** One turn of the measured loop. */
  method LookUp(cache: LRUCache<int, int>, key: int) returns (hit: bool)
    requires cache.Valid()
    modifies cache, cache.Nodes()
    ensures cache.Valid() && fresh(cache.Nodes() - old(cache.Nodes()))
    ensures hit <==> key in old(CachedKeys(cache))
    ensures CachedKeys(cache) == Paging.Access(old(CachedKeys(cache)), key, cache.capacity)
  {
    hide Find, Apply, Without, KeyList, Paging.Access;
    cache.ValidDistinct();
    KeyListHas(cache.Contents(), key);
    KeyListApply(cache.Contents(), key, key * 10, cache.capacity);
    TouchMiss(cache.Contents(), key, cache.capacity);
    var value := cache.Get(key);
    hit := value.Some?;
    if !hit {
      cache.Put(key, key * 10);
    }
  }

  /** The warm-up loop. */
  method WarmUp(cache: LRUCache<int, int>)
    requires cache.Valid() && cache.Contents() == []
    modifies cache, cache.Nodes()
    ensures cache.Valid() && fresh(cache.Nodes() - old(cache.Nodes()))
    ensures CachedKeys(cache) == Down(cache.capacity)
  {
    hide Find, Apply;
    for i := 0 to cache.capacity
      invariant cache.Valid() && fresh(cache.Nodes() - old(cache.Nodes()))
      invariant CachedKeys(cache) == Down(i)
    {
      cache.ValidDistinct();
      KeyListHas(cache.Contents(), i);
      KeyListApply(cache.Contents(), i, i * 10, cache.capacity);
      assert Paging.Access(Down(i), i, cache.capacity) == Down(i + 1);
      cache.Put(i, i * 10);
    }
  }

  method RunBenchmark(cacheSize: nat, keys: seq<int>) returns (result: BenchmarkResult)
    requires cacheSize >= 1
    ensures result.operations == |keys| == result.hits + result.misses
    ensures result.misses == Paging.Misses(Down(cacheSize), keys, cacheSize)
  {
    hide Find, Apply, Paging.Access, Paging.After, Paging.Misses, CachedKeys, Down;
    var cache := new LRUCache<int, int>(cacheSize);
    var hits, misses := 0, 0;
    WarmUp(cache);
    ghost var warm := Down(cacheSize);
    Paging.RunEnds(warm, keys, cacheSize);
    for n := 0 to |keys|
      invariant cache.Valid() && fresh(cache) && fresh(cache.Nodes()) && hits + misses == n
      invariant CachedKeys(cache) == Paging.After(warm, keys[..n], cacheSize)
      invariant misses == Paging.Misses(warm, keys[..n], cacheSize)
    {
      Paging.RunNext(warm, keys, n, cacheSize);
      var hit := LookUp(cache, keys[n]);
      if hit {
        hits := hits + 1;
      } else {
        misses := misses + 1;
      }
    }
    result := BenchmarkResult(|keys|, hits, misses);
  }

  // ---- What the reported misses mean ----

  lemma DownDistinct(n: nat)
    ensures Paging.Distinct(Down(n))
  {
  }

  /** The keys `c, ..., d - 1`. */
  ghost function Span(c: nat, d: nat): (r: set<int>)
    ensures forall x :: x in r <==> c <= x < d
    ensures |r| == if c <= d then d - c else 0
  {
    if c >= d then {} else Span(c, d - 1) + {d - 1}
  }

  lemma {:induction false} DropWarm(c: nat, n: nat, d: nat)
    requires c <= n <= d
    ensures Paging.Keep(Down(n), Span(c, d)) == Down(c)
  {
    if n == c {
      Paging.KeepSame(Down(n), Span(c, d), {});
      Paging.KeepAll(Down(n));
    } else {
      DropWarm(c, n - 1, d);
      assert Down(n)[1..] == Down(n - 1);
    }
  }

  /** A larger cache never reports more misses on the same keys, although each size is warmed up with
      keys of its own. */
  lemma BenchmarkMonotone(c: nat, d: nat, keys: seq<int>)
    requires 1 <= c <= d
    ensures Paging.Misses(Down(d), keys, d) <= Paging.Misses(Down(c), keys, c)
  {
    DropWarm(c, d, d);
    DownDistinct(d);
    var _, _ := Paging.NestedRun(Down(c), Down(d), Down(d), Span(c, d), c, d, keys);
  }

  /** The reported misses against any other policy of `size <= cacheSize` places. */
  lemma BenchmarkCompetitive(cacheSize: nat, keys: seq<int>, held: seq<set<int>>, size: nat)
    requires 1 <= size <= cacheSize && Paging.Schedule(held, keys, size)
    ensures (cacheSize - size + 1) * Paging.Misses(Down(cacheSize), keys, cacheSize)
            <= cacheSize * Paging.OtherMisses(held, keys) + (cacheSize - size + 1) * size
  {
    DownDistinct(cacheSize);
    Paging.Competitive(Down(cacheSize), held, keys, cacheSize, size);
  }
}
