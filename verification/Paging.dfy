/** The benchmark loop as a paging policy: every key is looked up and, on a miss, put.  Only the
    keys matter here, so a cache is its list of keys, most recently used first. */
module Paging {
  import opened Wrappers

  function Minus<K(==)>(s: seq<K>, k: K): seq<K> {
    if s == [] then [] else if s[0] == k then Minus(s[1..], k) else [s[0]] + Minus(s[1..], k)
  }

  /** The first `n` keys, or all of them when there are fewer. */
  function Take<K>(s: seq<K>, n: nat): seq<K> {
    if |s| <= n then s else s[..n]
  }

  /** One turn of the loop: a hit moves the key to the front, a miss inserts it there and the last
      key of a full cache leaves. */
  function Access<K(==, !new)>(s: seq<K>, k: K, capacity: nat): seq<K> {
    [k] + (if k in s then Minus(s, k)
           else if |s| >= capacity && |s| > 0 then s[..|s| - 1] else s)
  }

  function After<K(==, !new)>(s: seq<K>, trace: seq<K>, capacity: nat): seq<K>
    decreases trace
  {
    if trace == [] then s else After(Access(s, trace[0], capacity), trace[1..], capacity)
  }

  function Misses<K(==, !new)>(s: seq<K>, trace: seq<K>, capacity: nat): (n: nat)
    ensures n <= |trace|
    decreases trace
  {
    if trace == [] then 0
    else (if trace[0] in s then 0 else 1) + Misses(Access(s, trace[0], capacity), trace[1..], capacity)
  }

  ghost predicate Distinct<K(!new)>(s: seq<K>) {
    forall i, j :: 0 <= i < j < |s| ==> s[i] != s[j]
  }

  ghost function SetOf<K(!new)>(s: seq<K>): set<K> {
    set x | x in s
  }

  lemma {:induction false} MinusIn<K(!new)>(s: seq<K>, k: K)
    ensures forall x :: x in Minus(s, k) <==> x in s && x != k
    ensures k !in s ==> Minus(s, k) == s
  {
    if s != [] {
      MinusIn(s[1..], k);
      assert forall x :: x in s <==> x == s[0] || x in s[1..];
      assert s == [s[0]] + s[1..];
    }
  }

  lemma {:induction false} MinusDistinct<K(!new)>(s: seq<K>, k: K)
    requires Distinct(s)
    ensures Distinct(Minus(s, k))
    ensures k in s ==> |Minus(s, k)| == |s| - 1
  {
    if s != [] {
      MinusDistinct(s[1..], k);
      MinusIn(s[1..], k);
      var m := Minus(s[1..], k);
      if s[0] == k {
        assert m == s[1..];
      } else {
        assert forall i :: 0 <= i < |m| ==> m[i] in s[1..];
      }
    }
  }

  lemma AccessKeeps<K(!new)>(s: seq<K>, k: K, capacity: nat)
    requires capacity >= 1 && Distinct(s) && |s| <= capacity
    ensures Distinct(Access(s, k, capacity)) && |Access(s, k, capacity)| <= capacity
  {
    MinusDistinct(s, k);
    MinusIn(s, k);
  }

  lemma {:induction false} AfterKeeps<K(!new)>(s: seq<K>, trace: seq<K>, capacity: nat)
    requires capacity >= 1 && Distinct(s) && |s| <= capacity
    ensures Distinct(After(s, trace, capacity)) && |After(s, trace, capacity)| <= capacity
    ensures trace != [] ==> After(s, trace, capacity) != [] && After(s, trace, capacity)[0] == trace[|trace| - 1]
    decreases trace
  {
    if trace != [] {
      AccessKeeps(s, trace[0], capacity);
      AfterKeeps(Access(s, trace[0], capacity), trace[1..], capacity);
    }
  }

  lemma {:induction false} RunSplits<K(!new)>(s: seq<K>, a: seq<K>, b: seq<K>, capacity: nat)
    ensures After(s, a + b, capacity) == After(After(s, a, capacity), b, capacity)
    ensures Misses(s, a + b, capacity) == Misses(s, a, capacity) + Misses(After(s, a, capacity), b, capacity)
    decreases a
  {
    if a == [] {
      assert a + b == b;
    } else {
      assert (a + b)[1..] == a[1..] + b;
      RunSplits(Access(s, a[0], capacity), a[1..], b, capacity);
    }
  }

  lemma RunNext<K(!new)>(s: seq<K>, trace: seq<K>, n: nat, capacity: nat)
    requires n < |trace|
    ensures var s' := After(s, trace[..n], capacity);
            && After(s, trace[..n + 1], capacity) == Access(s', trace[n], capacity)
            && Misses(s, trace[..n + 1], capacity)
               == Misses(s, trace[..n], capacity) + (if trace[n] in s' then 0 else 1)
  {
    assert trace[..n + 1] == trace[..n] + [trace[n]];
    RunSplits(s, trace[..n], [trace[n]], capacity);
  }

  lemma RunEnds<K(!new)>(s: seq<K>, trace: seq<K>, capacity: nat)
    ensures After(s, trace[..0], capacity) == s && Misses(s, trace[..0], capacity) == 0
    ensures Misses(s, trace[..|trace|], capacity) == Misses(s, trace, capacity)
  {
    assert trace[..|trace|] == trace;
  }

  // ---- A stretch of few distinct keys ----

  /** As long as the keys touched so far and those to come are at most `capacity` together, no key
      touched is evicted: from any reachable state each further key misses at most once. */
  lemma {:induction false} StretchMisses<K(!new)>(s: seq<K>, touched: nat, trace: seq<K>, capacity: nat)
    requires capacity >= 1 && Distinct(s) && |s| <= capacity && touched <= |s|
    requires |SetOf(s[..touched]) + SetOf(trace)| <= capacity
    ensures Misses(s, trace, capacity) <= |SetOf(trace) - SetOf(s[..touched])|
    decreases trace
  {
    if trace != [] {
      var k := trace[0];
      var touched' := if k in s[..touched] then touched else touched + 1;
      var seen := SetOf(s[..touched]);
      TouchOne(s, touched, trace, capacity);
      StretchMisses(Access(s, k, capacity), touched', trace[1..], capacity);
      NewKeys(seen, SetOf(trace[1..]), k);
    }
  }

  lemma TouchOne<K(!new)>(s: seq<K>, touched: nat, trace: seq<K>, capacity: nat)
    requires capacity >= 1 && Distinct(s) && |s| <= capacity && touched <= |s| && trace != []
    requires |SetOf(s[..touched]) + SetOf(trace)| <= capacity
    ensures var s' := Access(s, trace[0], capacity);
            var touched' := if trace[0] in s[..touched] then touched else touched + 1;
            && Distinct(s') && touched' <= |s'| <= capacity
            && SetOf(s'[..touched']) == SetOf(s[..touched]) + {trace[0]}
            && SetOf(trace) == {trace[0]} + SetOf(trace[1..])
            && |SetOf(s'[..touched']) + SetOf(trace[1..])| <= capacity
  {
    var k := trace[0];
    var seen := SetOf(s[..touched]);
    AccessKeeps(s, k, capacity);
    assert SetOf(trace) == {k} + SetOf(trace[1..]);
    SubsetSize(seen + {k}, seen + SetOf(trace));
    PrefixKept(s, touched, k, capacity);
    assert (seen + {k}) + SetOf(trace[1..]) == seen + SetOf(trace);
  }

  lemma NewKeys<T>(seen: set<T>, later: set<T>, k: T)
    ensures |later - (seen + {k})| + (if k in seen then 0 else 1) == |({k} + later) - seen|
  {
    var rest := later - (seen + {k});
    if k in seen {
      assert ({k} + later) - seen == rest;
    } else {
      assert ({k} + later) - seen == rest + {k};
    }
  }

  lemma {:induction false} MinusSplit<K(!new)>(s: seq<K>, k: K, n: nat)
    requires n <= |s|
    ensures Minus(s, k) == Minus(s[..n], k) + Minus(s[n..], k)
  {
    if n > 0 {
      assert s[..n][1..] == s[1..][..n - 1];
      assert s[n..] == s[1..][n - 1..];
      MinusSplit(s[1..], k, n - 1);
    } else {
      assert s[..n] == [] && s[n..] == s;
    }
  }

  lemma PrefixKept<K(!new)>(s: seq<K>, touched: nat, k: K, capacity: nat)
    requires capacity >= 1 && Distinct(s) && |s| <= capacity && touched <= |s|
    requires |SetOf(s[..touched]) + {k}| <= capacity
    ensures var s' := Access(s, k, capacity);
            var touched' := if k in s[..touched] then touched else touched + 1;
            touched' <= |s'| && SetOf(s'[..touched']) == SetOf(s[..touched]) + {k}
  {
    hide Minus;
    var s' := Access(s, k, capacity);
    var front := s[..touched];
    if k in front {
      MinusSplit(s, k, touched);
      MinusDistinct(front, k);
      MinusIn(front, k);
      assert s'[..touched] == [k] + Minus(front, k);
      assert SetOf([k] + Minus(front, k)) == SetOf(front) + {k};
    } else {
      SetOfSize(front);
      MinusIn(front, k);
      if k in s {
        MinusSplit(s, k, touched);
      }
      assert s'[..touched + 1] == [k] + front;
      assert SetOf([k] + front) == SetOf(front) + {k};
    }
  }

  lemma SetOfSize<K(!new)>(s: seq<K>)
    requires Distinct(s)
    ensures |SetOf(s)| == |s|
  {
    if s == [] {
      assert SetOf(s) == {};
    } else {
      SetOfSize(s[1..]);
      assert SetOf(s) == {s[0]} + SetOf(s[1..]);
    }
  }

  // ---- Any other policy ----

  /** What another policy of size `size` holds before each access and at the end: it loads a key only
      when that key is accessed, and holds it after the access. */
  ghost predicate Schedule<K(!new)>(held: seq<set<K>>, trace: seq<K>, size: nat) {
    && |held| == |trace| + 1
    && (forall i :: 0 <= i < |held| ==> |held[i]| <= size)
    && (forall i :: 0 <= i < |trace| ==> trace[i] in held[i + 1] && held[i + 1] <= held[i] + {trace[i]})
  }

  ghost function OtherMisses<K(!new)>(held: seq<set<K>>, trace: seq<K>): nat
    requires |held| == |trace| + 1
  {
    if trace == [] then 0
    else (if trace[0] in held[0] then 0 else 1) + OtherMisses(held[1..], trace[1..])
  }

  /** Every key it does not hold at the start costs it a miss. */
  lemma {:induction false} OtherMissesNewKeys<K(!new)>(held: seq<set<K>>, trace: seq<K>, size: nat)
    requires Schedule(held, trace, size)
    ensures |SetOf(trace) - held[0]| <= OtherMisses(held, trace)
  {
    assert trace != [] ==> SetOf(trace) == {trace[0]} + SetOf(trace[1..]);
    hide SetOf;
    if trace == [] {
      assert SetOf(trace) - held[0] == {};
    } else {
      OtherMissesNewKeys(held[1..], trace[1..], size);
      var rest := SetOf(trace[1..]) - held[1];
      SubsetSize(SetOf(trace) - held[0], rest + (if trace[0] in held[0] then {} else {trace[0]}));
    }
  }

  lemma {:induction false} OtherSplits<K(!new)>(held: seq<set<K>>, trace: seq<K>, n: nat)
    requires |held| == |trace| + 1 && n <= |trace|
    ensures OtherMisses(held, trace) == OtherMisses(held[..n + 1], trace[..n]) + OtherMisses(held[n..], trace[n..])
  {
    if n == 0 {
      assert trace[0..] == trace && held[0..] == held;
    } else {
      OtherSplits(held[1..], trace[1..], n - 1);
      assert trace[..n][1..] == trace[1..][..n - 1];
      assert held[..n + 1][1..] == held[1..][..n];
      assert trace[n..] == trace[1..][n - 1..];
      assert held[n..] == held[1..][n - 1..];
    }
  }

  // ---- Competitiveness ----

  /** The shortest stretch on which `m` misses happen. */
  lemma FirstMisses<K(!new)>(s: seq<K>, trace: seq<K>, capacity: nat, m: nat) returns (n: nat)
    requires Misses(s, trace, capacity) >= m
    ensures n <= |trace| && Misses(s, trace[..n], capacity) == m
  {
    n := 0;
    while Misses(s, trace[..n], capacity) != m
      invariant n <= |trace| && Misses(s, trace[..n], capacity) <= m
      decreases |trace| - n
    {
      assert trace[..|trace|] == trace;
      assert trace[..n + 1] == trace[..n] + [trace[n]];
      RunSplits(s, trace[..n], [trace[n]], capacity);
      n := n + 1;
    }
  }

  /** A phase with up to `capacity` misses costs the other policy all but `size - 1` of them, when both
      start from the same last key. */
  lemma PhaseCost<K(!new)>(s: seq<K>, held: seq<set<K>>, trace: seq<K>, capacity: nat, size: nat)
    requires 1 <= size <= capacity && Distinct(s) && 0 < |s| <= capacity
    requires Schedule(held, trace, size) && s[0] in held[0]
    requires Misses(s, trace, capacity) <= capacity
    ensures OtherMisses(held, trace) >= Misses(s, trace, capacity) - size + 1
  {
    var p := s[0];
    var keys := SetOf(trace);
    assert SetOf(s[..1]) == {p};
    if |keys - {p}| < Misses(s, trace, capacity) {
      SubsetSize({p} + keys, (keys - {p}) + {p});
      StretchMisses(s, 1, trace, capacity);
      assert false;
    }
    OtherMissesNewKeys(held, trace, size);
    var kept := held[0] - {p};
    assert keys - {p} <= (keys - held[0]) + kept;
    SubsetSize(keys - {p}, (keys - held[0]) + kept);
  }

  lemma {:induction false} CompetitiveFrom<K(!new)>(s: seq<K>, held: seq<set<K>>, trace: seq<K>, capacity: nat,
                                                    size: nat)
    requires 1 <= size <= capacity && Distinct(s) && 0 < |s| <= capacity
    requires Schedule(held, trace, size) && s[0] in held[0]
    ensures (capacity - size + 1) * Misses(s, trace, capacity)
            <= capacity * OtherMisses(held, trace) + (capacity - size + 1) * (size - 1)
    decreases |trace|
  {
    var d := capacity - size + 1;
    if Misses(s, trace, capacity) < capacity {
      PhaseCost(s, held, trace, capacity, size);
      PartPhase(capacity, size, Misses(s, trace, capacity), OtherMisses(held, trace));
    } else {
      var n := FirstMisses(s, trace, capacity, capacity);
      assert n > 0 by { assert trace[..0] == []; }
      CutPhase(s, held, trace, capacity, size, n);
      var s' := After(s, trace[..n], capacity);
      CompetitiveFrom(s', held[n..], trace[n..], capacity, size);
      AddPhase(capacity, d, OtherMisses(held[..n + 1], trace[..n]), Misses(s', trace[n..], capacity),
               OtherMisses(held[n..], trace[n..]), d * (size - 1));
    }
  }

  /** Cutting the trace after a phase: costs add up, and both policies hold the last key of the phase. */
  lemma CutPhase<K(!new)>(s: seq<K>, held: seq<set<K>>, trace: seq<K>, capacity: nat, size: nat, n: nat)
    requires 1 <= size <= capacity && Distinct(s) && 0 < |s| <= capacity
    requires Schedule(held, trace, size) && s[0] in held[0]
    requires 0 < n <= |trace| && Misses(s, trace[..n], capacity) == capacity
    ensures var s' := After(s, trace[..n], capacity);
            && Distinct(s') && 0 < |s'| <= capacity && Schedule(held[n..], trace[n..], size) && s'[0] in held[n]
            && Misses(s, trace, capacity) == capacity + Misses(s', trace[n..], capacity)
            && OtherMisses(held, trace)
               == OtherMisses(held[..n + 1], trace[..n]) + OtherMisses(held[n..], trace[n..])
            && OtherMisses(held[..n + 1], trace[..n]) >= capacity - size + 1
  {
    assert trace[..n] + trace[n..] == trace;
    RunSplits(s, trace[..n], trace[n..], capacity);
    OtherSplits(held, trace, n);
    AfterKeeps(s, trace[..n], capacity);
    PhaseCost(s, held[..n + 1], trace[..n], capacity, size);
  }

  lemma PartPhase(capacity: nat, size: nat, m: nat, o: nat)
    requires 1 <= size <= capacity && o >= m - size + 1
    ensures (capacity - size + 1) * m <= capacity * o + (capacity - size + 1) * (size - 1)
  {
    var d := capacity - size + 1;
    MulLe(d, m, o + (size - 1));
    Distribute(d, o, size - 1);
    MulLe(o, d, capacity);
  }

  lemma AddPhase(capacity: nat, d: nat, o: nat, m': nat, o': nat, slack: int)
    requires o >= d && d * m' <= capacity * o' + slack
    ensures d * (capacity + m') <= capacity * (o + o') + slack
  {
    MulLe(capacity, d, o);
    Distribute(d, capacity, m');
    Distribute(capacity, o, o');
  }

  lemma MulLe(a: nat, x: int, y: int)
    requires x <= y
    ensures a * x <= a * y
  {
  }

  lemma Distribute(a: int, x: int, y: int)
    ensures a * (x + y) == a * x + a * y
  {
  }

  /** Least-recently-used eviction against every other demand policy, even one that knows the whole
      trace: from any state of either, with `size <= capacity` places for the other policy. */
  lemma Competitive<K(!new)>(s: seq<K>, held: seq<set<K>>, trace: seq<K>, capacity: nat, size: nat)
    requires 1 <= size <= capacity && Distinct(s) && |s| <= capacity
    requires Schedule(held, trace, size)
    ensures (capacity - size + 1) * Misses(s, trace, capacity)
            <= capacity * OtherMisses(held, trace) + (capacity - size + 1) * size
  {
    if trace != [] {
      var d := capacity - size + 1;
      var s' := Access(s, trace[0], capacity);
      AccessKeeps(s, trace[0], capacity);
      CompetitiveFrom(s', held[1..], trace[1..], capacity, size);
      var m := Misses(s', trace[1..], capacity);
      Distribute(d, size - 1, 1);
      Distribute(d, m, 1);
      MulLe(capacity, OtherMisses(held[1..], trace[1..]), OtherMisses(held, trace));
    } else {
      MulLe(capacity - size + 1, 0, size);
    }
  }

  /** The case of equal sizes: at most `capacity` times the other policy's misses, plus `capacity`. */
  lemma CompetitiveEqual<K(!new)>(s: seq<K>, held: seq<set<K>>, trace: seq<K>, capacity: nat)
    requires 1 <= capacity && Distinct(s) && |s| <= capacity
    requires Schedule(held, trace, capacity)
    ensures Misses(s, trace, capacity) <= capacity * OtherMisses(held, trace) + capacity
  {
    Competitive(s, held, trace, capacity, capacity);
  }

  // ---- Stack inclusion ----

  function Keep<K(==)>(s: seq<K>, extra: set<K>): seq<K> {
    if s == [] then [] else if s[0] in extra then Keep(s[1..], extra) else [s[0]] + Keep(s[1..], extra)
  }

  /** The contents of a smaller and of a larger cache, as two cuts of one recency stack: the smaller
      one may lack a few keys that the larger one held from the start. */
  ghost predicate Nested<K(!new)>(small: seq<K>, large: seq<K>, stack: seq<K>, extra: set<K>, c: nat, d: nat) {
    && Distinct(stack) && 1 <= c && c + |extra| <= d
    && small == Take(Keep(stack, extra), c) && large == Take(stack, d)
  }

  /** A bounded cache is the top of an unbounded one. */
  lemma AccessTop<K(!new)>(stack: seq<K>, k: K, c: nat)
    requires Distinct(stack) && c >= 1
    ensures Access(Take(stack, c), k, c) == Take([k] + Minus(stack, k), c)
  {
    if |stack| > c {
      AccessCut(stack, k, c);
    } else if k in stack {
      MinusDistinct(stack, k);
    } else if |stack| == c {
      MinusIn(stack, k);
      TakeFront([k] + stack[..c - 1], [stack[c - 1]], c);
      assert [k] + stack == ([k] + stack[..c - 1]) + [stack[c - 1]];
    } else {
      MinusIn(stack, k);
    }
  }

  lemma AccessCut<K(!new)>(stack: seq<K>, k: K, c: nat)
    requires Distinct(stack) && 1 <= c < |stack|
    ensures Access(stack[..c], k, c) == Take([k] + Minus(stack, k), c)
  {
    var top, rest := stack[..c], Minus(stack[c..], k);
    MinusSplit(stack, k, c);
    if k in top {
      MinusDistinct(top, k);
      AppendThree([k], Minus(top, k), [], rest);
      TakeFront([k] + Minus(top, k), rest, c);
    } else {
      MinusIn(top, k);
      MissCut(k, top, rest, c);
    }
  }

  lemma MissCut<K(!new)>(k: K, top: seq<K>, rest: seq<K>, c: nat)
    requires |top| == c >= 1
    ensures Take([k] + (top + rest), c) == [k] + top[..c - 1]
  {
    AppendThree([k], top[..c - 1], [top[c - 1]], rest);
    assert top[..c - 1] + [top[c - 1]] == top;
    TakeFront([k] + top[..c - 1], [top[c - 1]] + rest, c);
  }

  lemma AppendThree<K>(a: seq<K>, b: seq<K>, c: seq<K>, d: seq<K>)
    ensures a + ((b + c) + d) == (a + b) + (c + d)
    ensures a + (b + d) == (a + b) + d
  {
  }

  lemma TakeFront<K(!new)>(a: seq<K>, b: seq<K>, c: nat)
    requires |a| == c
    ensures Take(a + b, c) == a
  {
  }

  lemma {:induction false} KeepTop<K(!new)>(stack: seq<K>, extra: set<K>, c: nat, x: K)
    requires Distinct(stack) && x in Take(Keep(stack, extra), c)
    ensures x in Take(stack, c + |extra|)
  {
    if x != stack[0] {
      var tail := stack[1..];
      if stack[0] in extra {
        KeepSame(tail, extra, extra - {stack[0]});
        KeepTop(tail, extra - {stack[0]}, c, x);
        assert x in Take(tail, c + |extra| - 1);
      } else {
        assert Take(Keep(stack, extra), c)[1..] == Take(Keep(tail, extra), c - 1);
        KeepTop(tail, extra, c - 1, x);
      }
    }
  }

  lemma KeepSame<K(!new)>(s: seq<K>, e: set<K>, f: set<K>)
    requires forall x :: x in s ==> (x in e <==> x in f)
    ensures Keep(s, e) == Keep(s, f)
  {
  }

  lemma {:induction false} KeepDistinct<K(!new)>(s: seq<K>, extra: set<K>)
    requires Distinct(s)
    ensures Distinct(Keep(s, extra)) && forall i :: 0 <= i < |Keep(s, extra)| ==> Keep(s, extra)[i] in s
  {
    if s != [] {
      KeepDistinct(s[1..], extra);
    }
  }

  lemma KeepCons<K(!new)>(x: K, s: seq<K>, extra: set<K>)
    ensures Keep([x] + s, extra) == if x in extra then Keep(s, extra) else [x] + Keep(s, extra)
  {
    assert ([x] + s)[1..] == s;
  }

  lemma MinusCons<K(!new)>(x: K, s: seq<K>, k: K)
    ensures Minus([x] + s, k) == if x == k then Minus(s, k) else [x] + Minus(s, k)
  {
    assert ([x] + s)[1..] == s;
  }

  lemma {:induction false} KeepMinus<K(!new)>(s: seq<K>, extra: set<K>, k: K)
    requires Distinct(s)
    ensures Keep(Minus(s, k), extra - {k}) == Minus(Keep(s, extra), k)
  {
    if s != [] {
      var head, tail := s[0], s[1..];
      if head == k {
        assert k !in tail;
        MinusIn(tail, k);
        KeepDistinct(tail, extra);
        var kept := Keep(tail, extra);
        assert k !in kept;
        MinusIn(kept, k);
        KeepSame(tail, extra, extra - {k});
        MinusCons(k, Keep(tail, extra), k);
      } else {
        KeepMinus(tail, extra, k);
        assert Minus(s, k) == [head] + Minus(tail, k);
        KeepCons(head, Minus(tail, k), extra - {k});
        MinusCons(head, Keep(tail, extra), k);
      }
    }
  }

  lemma NestedAccess<K(!new)>(small: seq<K>, large: seq<K>, stack: seq<K>, extra: set<K>, c: nat, d: nat, k: K)
    requires Nested(small, large, stack, extra, c, d)
    ensures k in small ==> k in large
    ensures Nested(Access(small, k, c), Access(large, k, d), [k] + Minus(stack, k), extra - {k}, c, d)
  {
    if k in small {
      KeepTop(stack, extra, c, k);
    }
    MinusDistinct(stack, k);
    MinusIn(stack, k);
    KeepDistinct(stack, extra);
    AccessTop(stack, k, d);
    AccessTop(Keep(stack, extra), k, c);
    KeepMinus(stack, extra, k);
    SubsetSize(extra - {k}, extra);
    assert ([k] + Minus(stack, k))[1..] == Minus(stack, k);
  }

  /** Nested caches stay nested, and the larger one never misses more. */
  lemma {:induction false} NestedRun<K(!new)>(small: seq<K>, large: seq<K>, stack: seq<K>, extra: set<K>,
                                              c: nat, d: nat, trace: seq<K>)
      returns (stack': seq<K>, extra': set<K>)
    requires Nested(small, large, stack, extra, c, d)
    ensures Nested(After(small, trace, c), After(large, trace, d), stack', extra', c, d) && extra' <= extra
    ensures Misses(large, trace, d) <= Misses(small, trace, c)
    decreases trace
  {
    if trace == [] {
      stack', extra' := stack, extra;
    } else {
      var k := trace[0];
      NestedAccess(small, large, stack, extra, c, d, k);
      stack', extra' := NestedRun(Access(small, k, c), Access(large, k, d), [k] + Minus(stack, k), extra - {k},
                                  c, d, trace[1..]);
    }
  }

  /** From empty caches the smaller one is always a prefix of the larger one, so every hit of the
      smaller is a hit of the larger. */
  lemma StackInclusion<K(!new)>(trace: seq<K>, c: nat, d: nat)
    requires 1 <= c <= d
    ensures After([], trace, c) <= After([], trace, d)
    ensures Misses([], trace, d) <= Misses([], trace, c)
  {
    var stack, extra := NestedRun([], [], [], {}, c, d, trace);
    assert extra == {};
    KeepAll(stack);
  }

  lemma {:induction false} KeepAll<K(!new)>(s: seq<K>)
    ensures Keep(s, {}) == s
  {
    if s != [] { KeepAll(s[1..]); }
  }
}
