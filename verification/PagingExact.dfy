/** That the bound on least-recently-used eviction is exact: for every pair of sizes there are traces of
    any number of phases on which it holds with equality. */
module PagingExact {
  import opened Paging

  /** The keys accessed, what the other policy holds before each access and at the end, and the keys with
      the last accessed first, however many. */
  datatype Play = Play(trace: seq<int>, held: seq<set<int>>, stack: seq<int>)

  ghost predicate Played(p: Play, capacity: nat, size: nat, misses: nat, others: nat) {
    && Distinct(p.stack) && Schedule(p.held, p.trace, size)
    && After([], p.trace, capacity) == Take(p.stack, capacity)
    && Misses([], p.trace, capacity) == misses && OtherMisses(p.held, p.trace) == others
  }

  function Holds(p: Play): set<int> {
    if p.held == [] then {} else p.held[|p.held| - 1]
  }

  function Next(p: Play, k: int, h: set<int>): Play {
    Play(p.trace + [k], p.held + [h], [k] + Minus(p.stack, k))
  }

  lemma PlayNext(p: Play, k: int, h: set<int>, capacity: nat, size: nat, misses: nat, others: nat)
    requires capacity >= 1 && Played(p, capacity, size, misses, others)
    requires k in h && |h| <= size && h <= Holds(p) + {k}
    ensures Played(Next(p, k, h), capacity, size, misses + (if k in Take(p.stack, capacity) then 0 else 1),
                   others + (if k in Holds(p) then 0 else 1))
    ensures Holds(Next(p, k, h)) == h
  {
    hide Take, Distinct, Minus;
    RunSplits([], p.trace, [k], capacity);
    AccessTop(p.stack, k, capacity);
    FrontDistinct(p.stack, k);
    ScheduleNext(p.held, p.trace, size, k, h);
  }

  lemma FrontDistinct(stack: seq<int>, k: int)
    requires Distinct(stack)
    ensures Distinct([k] + Minus(stack, k))
  {
    MinusDistinct(stack, k);
    MinusIn(stack, k);
  }

  lemma ScheduleNext(held: seq<set<int>>, trace: seq<int>, size: nat, k: int, h: set<int>)
    requires Schedule(held, trace, size) && k in h && |h| <= size && h <= held[|trace|] + {k}
    ensures Schedule(held + [h], trace + [k], size)
    ensures OtherMisses(held + [h], trace + [k])
            == OtherMisses(held, trace) + (if k in held[|trace|] then 0 else 1)
  {
    var n := |trace|;
    OtherSplits(held + [h], trace + [k], n);
    assert (held + [h])[..n + 1] == held && (trace + [k])[..n] == trace;
    assert (held + [h])[n..] == [held[n], h] && (trace + [k])[n..] == [k];
  }

  lemma Unused(s: seq<int>) returns (k: int)
    ensures forall x :: x in s ==> x < k
  {
    k := 0;
    for i := 0 to |s|
      invariant forall j :: 0 <= j < i ==> s[j] < k
    {
      if s[i] >= k { k := s[i] + 1; }
    }
  }

  /** Both hold the same last keys, as many as the other policy has places for. */
  ghost predicate Ready(p: Play, capacity: nat, size: nat, misses: nat, others: nat) {
    && Played(p, capacity, size, misses, others)
    && |p.stack| >= size && Holds(p) == SetOf(p.stack[..size])
  }

  /** A key never used before: both policies miss. */
  lemma PlayFresh(p: Play, k: int, rest: set<int>, capacity: nat, size: nat, misses: nat, others: nat)
    requires capacity >= 1 && Played(p, capacity, size, misses, others)
    requires rest <= Holds(p) && |rest| < size && k !in p.stack && k !in Holds(p)
    ensures var q := Next(p, k, rest + {k});
            && Played(q, capacity, size, misses + 1, others + 1)
            && q.stack == [k] + p.stack && Holds(q) == rest + {k}
  {
    hide Played;
    PlayNext(p, k, rest + {k}, capacity, size, misses, others);
    MinusIn(p.stack, k);
  }

  /** A key that is just beyond the cache, and that the other policy holds. */
  lemma PlayBeyond(p: Play, above: seq<int>, k: int, below: seq<int>, capacity: nat, size: nat, misses: nat,
                   others: nat)
    requires capacity >= 1 && Played(p, capacity, size, misses, others)
    requires p.stack == above + ([k] + below) && |above| == capacity && k in Holds(p)
    ensures var q := Next(p, k, Holds(p));
            && Played(q, capacity, size, misses + 1, others)
            && q.stack == [k] + (above + below) && Holds(q) == Holds(p)
  {
    HoldsFew(p, capacity, size, misses, others);
    Beyond(above, k, below);
    assert Take(p.stack, capacity) == above;
    hide Played;
    PlayNext(p, k, Holds(p), capacity, size, misses, others);
  }

  lemma HoldsFew(p: Play, capacity: nat, size: nat, misses: nat, others: nat)
    requires Played(p, capacity, size, misses, others)
    ensures |Holds(p)| <= size && Distinct(p.stack)
  {
  }

  lemma Beyond(above: seq<int>, k: int, below: seq<int>)
    requires Distinct(above + ([k] + below))
    ensures k !in above && Minus(above + ([k] + below), k) == above + below
  {
    var s := above + ([k] + below);
    assert s[|above|] == k && forall i :: 0 <= i < |above| ==> s[i] == above[i];
    assert forall i :: 0 <= i < |below| ==> s[|above| + 1 + i] == below[i];
    MinusSplit(s, k, |above|);
    assert s[..|above|] == above && s[|above|..] == [k] + below;
    MinusIn(above, k);
    MinusIn(below, k);
    MinusCons(k, below, k);
  }

  /** Some new keys, for each of which the other policy gives up the one before. */
  lemma FreshKeys(p: Play, count: nat, capacity: nat, size: nat, misses: nat, others: nat)
    returns (q: Play, added: seq<int>)
    requires 1 <= size <= capacity && Ready(p, capacity, size, misses, others)
    ensures Played(q, capacity, size, misses + count, others + count)
    ensures |added| == count && q.stack == added + p.stack
    ensures count > 0 ==> Holds(q) == SetOf(p.stack[1..size]) + {added[0]}
  {
    hide Played, Holds, Next, SetOf;
    var rest := SetOf(p.stack[1..size]);
    RestFits(p, capacity, size, misses, others);
    q, added := p, [];
    assert q.stack == added + p.stack;
    while |added| < count
      invariant |added| <= count && Played(q, capacity, size, misses + |added|, others + |added|)
      invariant q.stack == added + p.stack && rest <= Holds(q) && forall x :: x in Holds(q) ==> x in q.stack
      invariant added != [] ==> Holds(q) == rest + {added[0]}
    {
      var k := Unused(q.stack);
      PlayFresh(q, k, rest, capacity, size, misses + |added|, others + |added|);
      assert [k] + (added + p.stack) == ([k] + added) + p.stack;
      q, added := Next(q, k, rest + {k}), [k] + added;
    }
  }

  lemma RestFits(p: Play, capacity: nat, size: nat, misses: nat, others: nat)
    requires size >= 1 && Ready(p, capacity, size, misses, others)
    ensures |SetOf(p.stack[1..size])| == size - 1 && SetOf(p.stack[1..size]) <= Holds(p)
    ensures forall x :: x in Holds(p) ==> x in p.stack
  {
    SetOfSize(p.stack[1..size]);
    assert p.stack[..size][1..] == p.stack[1..size];
  }

  /** The stack in the middle of a sweep, with the keys up to `i` still to be swept. */
  function Swept(s: seq<int>, added: seq<int>, size: nat, i: nat): seq<int>
    requires i < size <= |s|
  {
    s[i + 1..size] + added + s[..i + 1] + s[size..]
  }

  lemma SweptNext(s: seq<int>, added: seq<int>, size: nat, i: nat)
    requires 0 < i < size <= |s|
    ensures var above, below := s[i + 1..size] + added + s[..i], s[size..];
            && Swept(s, added, size, i) == above + ([s[i]] + below)
            && |above| == |added| + size - 1
            && Swept(s, added, size, i - 1) == [s[i]] + (above + below)
  {
    assert s[..i + 1] == s[..i] + [s[i]];
    assert s[i..size] == [s[i]] + s[i + 1..size];
  }

  /** The keys the other policy kept, from the oldest on: each has just left the cache. */
  lemma Sweep(p: Play, s: seq<int>, added: seq<int>, capacity: nat, size: nat, misses: nat, others: nat)
    returns (q: Play)
    requires 1 <= size <= |s| && |added| == capacity - size + 1 && capacity >= 1
    requires Played(p, capacity, size, misses, others) && p.stack == added + s
    requires forall x :: x in s[1..size] ==> x in Holds(p)
    ensures Played(q, capacity, size, misses + size - 1, others)
    ensures q.stack == Swept(s, added, size, 0) && Holds(q) == Holds(p)
  {
    hide Played, Swept;
    var i := size - 1;
    q := p;
    SweptFirst(s, added, size);
    while i > 0
      invariant i < size && Played(q, capacity, size, misses + size - 1 - i, others)
      invariant q.stack == Swept(s, added, size, i) && Holds(q) == Holds(p)
    {
      SweptNext(s, added, size, i);
      assert s[1..size][i - 1] == s[i];
      PlayBeyond(q, s[i + 1..size] + added + s[..i], s[i], s[size..], capacity, size, misses + size - 1 - i, others);
      q := Next(q, s[i], Holds(q));
      i := i - 1;
    }
  }

  lemma SweptFirst(s: seq<int>, added: seq<int>, size: nat)
    requires 1 <= size <= |s|
    ensures Swept(s, added, size, size - 1) == added + s
  {
    assert s == s[..size] + s[size..];
  }

  /** A phase: the cache misses every time, the other policy only on the new keys. */
  lemma Phase(p: Play, capacity: nat, size: nat, misses: nat, others: nat) returns (q: Play)
    requires 1 <= size <= capacity && Ready(p, capacity, size, misses, others)
    ensures Ready(q, capacity, size, misses + capacity, others + capacity - size + 1)
  {
    hide Played;
    var s, d := p.stack, capacity - size + 1;
    var added;
    q, added := FreshKeys(p, d, capacity, size, misses, others);
    q := Sweep(q, s, added, capacity, size, misses + d, others + d);
    assert q.stack[..size] == s[1..size] + [added[0]];
    assert SetOf(s[1..size] + [added[0]]) == SetOf(s[1..size]) + {added[0]};
  }

  lemma SameKeys(s: seq<int>, t: seq<int>)
    requires forall x :: x in s <==> x in t
    ensures SetOf(s) == SetOf(t)
  {
    forall x ensures x in SetOf(s) <==> x in SetOf(t) {
      assert x in s <==> x in t;
    }
  }

  /** The other policy starts with the keys that are accessed first. */
  lemma Opening(capacity: nat, size: nat) returns (p: Play)
    requires 1 <= size <= capacity
    ensures Ready(p, capacity, size, size, 0)
  {
    var keys := seq(size, i => i);
    var h := SetOf(keys);
    SetOfSize(keys);
    p := Play([], [h], []);
    assert Played(p, capacity, size, 0, 0);
    for j := 0 to size
      invariant Played(p, capacity, size, j, 0) && Holds(p) == h
      invariant |p.stack| == j && forall x :: x in p.stack <==> x in keys[..j]
    {
      hide Played;
      assert keys[j] == j && j in h && keys[..j + 1] == keys[..j] + [j];
      PlayNext(p, j, h, capacity, size, j, 0);
      MinusIn(p.stack, j);
      p := Next(p, j, h);
    }
    assert p.stack[..size] == p.stack && keys[..size] == keys;
    SameKeys(p.stack, keys);
  }

  /** For every pair of sizes and any number of phases there is a trace, from an empty cache, on which the
      bound of `Paging.Competitive` is an equality: neither its factor nor its constant can be less. */
  lemma FactorReached(capacity: nat, size: nat, phases: nat) returns (trace: seq<int>, held: seq<set<int>>)
    requires 1 <= size <= capacity
    ensures Schedule(held, trace, size) && OtherMisses(held, trace) == (capacity - size + 1) * phases
    ensures (capacity - size + 1) * Misses([], trace, capacity)
            == capacity * OtherMisses(held, trace) + (capacity - size + 1) * size
  {
    hide Ready, Played;
    var d := capacity - size + 1;
    var p := Opening(capacity, size);
    for n := 0 to phases
      invariant Ready(p, capacity, size, size + capacity * n, d * n)
    {
      Distribute(capacity, n, 1);
      Distribute(d, n, 1);
      p := Phase(p, capacity, size, size + capacity * n, d * n);
    }
    ReadyGives(p, capacity, size, size + capacity * phases, d * phases);
    trace, held := p.trace, p.held;
    Distribute(d, size, capacity * phases);
    Exchange(d, capacity, phases);
  }

  lemma ReadyGives(p: Play, capacity: nat, size: nat, misses: nat, others: nat)
    requires Ready(p, capacity, size, misses, others)
    ensures Schedule(p.held, p.trace, size) && OtherMisses(p.held, p.trace) == others
    ensures Misses([], p.trace, capacity) == misses
  {
  }

  lemma Exchange(a: int, b: int, c: int)
    ensures a * (b * c) == b * (a * c)
  {
  }
}
