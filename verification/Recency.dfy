/** A bounded list of keyed entries, most recently used first, and what a whole run of
    uses, stores and deletions leaves in it.  The LRU caches and the rate limiter all
    change their list through these three events only. */
module Recency {
  import opened Wrappers

  datatype Entry<K, P> = Entry(key: K, payload: P)

  /** Touch: a hit moves the entry to the front.  Store: an insertion or an update, at the front.
      Drop: a deletion. */
  datatype Event<K, P> = Touch(key: K) | Store(key: K, payload: P) | Drop(key: K)

  /** The position of `k`, or `|s|` when no entry has that key. */
  function Find<K(==), P>(s: seq<Entry<K, P>>, k: K): (i: nat)
    ensures i <= |s|
    ensures i < |s| ==> s[i].key == k
    ensures forall j :: 0 <= j < i ==> s[j].key != k
  {
    if s == [] then 0 else if s[0].key == k then 0 else 1 + Find(s[1..], k)
  }

  predicate Has<K(==), P>(s: seq<Entry<K, P>>, k: K) {
    Find(s, k) < |s|
  }

  function Without<K(==), P>(s: seq<Entry<K, P>>, k: K): seq<Entry<K, P>> {
    var i := Find(s, k);
    if i < |s| then s[..i] + s[i + 1..] else s
  }

  /** Room for one more entry: the least recently used one leaves a full list. */
  function Evicted<K, P>(s: seq<Entry<K, P>>, capacity: nat): seq<Entry<K, P>> {
    if |s| >= capacity && |s| > 0 then s[..|s| - 1] else s
  }

  function Apply<K(==), P>(s: seq<Entry<K, P>>, e: Event<K, P>, capacity: nat): seq<Entry<K, P>> {
    var i := Find(s, e.key);
    match e
    case Touch(k) => if i < |s| then [s[i]] + Without(s, k) else s
    case Store(k, p) => [Entry(k, p)] + (if i < |s| then Without(s, k) else Evicted(s, capacity))
    case Drop(k) => Without(s, k)
  }

  function Run<K(==), P>(trace: seq<Event<K, P>>, capacity: nat): seq<Entry<K, P>> {
    if trace == [] then []
    else Apply(Run(trace[..|trace| - 1], capacity), trace[|trace| - 1], capacity)
  }

  ghost predicate Distinct<K, P>(s: seq<Entry<K, P>>) {
    forall i, j :: 0 <= i < j < |s| ==> s[i].key != s[j].key
  }

  ghost function KeysOf<K, P>(s: seq<Entry<K, P>>): set<K> {
    set i | 0 <= i < |s| :: s[i].key
  }

  function ApplyAll<K(==), P>(s: seq<Entry<K, P>>, es: seq<Event<K, P>>, capacity: nat): seq<Entry<K, P>> {
    if es == [] then s
    else Apply(ApplyAll(s, es[..|es| - 1], capacity), es[|es| - 1], capacity)
  }

  function Drops<K, P>(keys: seq<K>): (es: seq<Event<K, P>>)
    ensures |es| == |keys| && forall i :: 0 <= i < |es| ==> es[i] == Drop(keys[i])
  {
    seq(|keys|, i requires 0 <= i < |keys| => Drop(keys[i]))
  }

  // ---- What the history says ----

  /** The payload of the last store of `k`, unless `k` was dropped after it. */
  function LastStore<K(==), P>(trace: seq<Event<K, P>>, k: K): Option<P> {
    if trace == [] then None
    else
      var before := LastStore(trace[..|trace| - 1], k);
      match trace[|trace| - 1]
      case Touch(_) => before
      case Store(j, p) => if j == k then Some(p) else before
      case Drop(j) => if j == k then None else before
  }

  /** Whether event `e` uses its key: every store does, a touch does when it hits. */
  predicate Uses<K(==), P>(s: seq<Entry<K, P>>, e: Event<K, P>) {
    e.Store? || (e.Touch? && Has(s, e.key))
  }

  /** The distinct other keys used since `k` was last used. */
  ghost function UsedSince<K, P>(trace: seq<Event<K, P>>, k: K, capacity: nat): set<K> {
    if trace == [] then {}
    else
      var before := trace[..|trace| - 1];
      var e := trace[|trace| - 1];
      if !Uses(Run(before, capacity), e) then UsedSince(before, k, capacity)
      else if e.key == k then {}
      else UsedSince(before, k, capacity) + {e.key}
  }

  /** When `k` was last touched or stored: one more than the position of that event, 0 for never. */
  function LastUse<K(==), P>(trace: seq<Event<K, P>>, k: K): (n: nat)
    ensures n <= |trace|
  {
    if trace == [] then 0
    else
      var e := trace[|trace| - 1];
      if !e.Drop? && e.key == k then |trace| else LastUse(trace[..|trace| - 1], k)
  }

  // ---- Facts about one event ----

  lemma FindAt<K, P>(s: seq<Entry<K, P>>, i: nat)
    requires Distinct(s) && i < |s|
    ensures Find(s, s[i].key) == i
  {
    var j := Find(s, s[i].key);
    assert j <= i;
  }

  lemma KeysOfSize<K, P>(s: seq<Entry<K, P>>)
    requires Distinct(s)
    ensures |KeysOf(s)| == |s|
  {
    if s == [] {
      assert KeysOf(s) == {};
    } else {
      var front := s[..|s| - 1];
      KeysOfSize(front);
      assert KeysOf(s) == KeysOf(front) + {s[|s| - 1].key};
      assert s[|s| - 1].key !in KeysOf(front);
    }
  }

  /** Where in `s` the entry at position `i` after event `e` stood before it. */
  function Origin<K(==), P>(s: seq<Entry<K, P>>, e: Event<K, P>, i: nat): int {
    var f := Find(s, e.key);
    if Uses(s, e) then (if f < |s| && i > f then i else i - 1)
    else if e.Drop? && i >= f then i + 1 else i
  }

  lemma WithoutAt<K, P>(s: seq<Entry<K, P>>, k: K, i: nat)
    requires i < |Without(s, k)|
    ensures var m := if i >= Find(s, k) then i + 1 else i;
            m < |s| && Without(s, k)[i] == s[m] && m != Find(s, k)
  {
    hide Find;
  }

  lemma ApplyAt<K, P>(s: seq<Entry<K, P>>, e: Event<K, P>, capacity: nat, i: nat)
    requires i < |Apply(s, e, capacity)|
    ensures var t := Apply(s, e, capacity);
            if Uses(s, e) && i == 0 then
              t[0].key == e.key
              && t[0].payload == (if e.Store? then e.payload else s[Find(s, e.key)].payload)
            else
              var m := Origin(s, e, i);
              0 <= m < |s| && t[i] == s[m] && (Uses(s, e) || e.Drop? ==> m != Find(s, e.key))
  {
    hide Find, Without;
    match e
    case Touch(k) => if Has(s, k) && i > 0 { WithoutAt(s, k, i - 1); }
    case Store(k, _) => if Has(s, k) && i > 0 { WithoutAt(s, k, i - 1); }
    case Drop(k) => WithoutAt(s, k, i);
  }

  lemma ApplyKeeps<K, P>(s: seq<Entry<K, P>>, e: Event<K, P>, capacity: nat)
    requires capacity >= 1 && Distinct(s) && |s| <= capacity
    ensures Distinct(Apply(s, e, capacity)) && |Apply(s, e, capacity)| <= capacity
  {
    var t := Apply(s, e, capacity);
    forall i, j | 0 <= i < j < |t| ensures t[i].key != t[j].key {
      ApplyAt(s, e, capacity, i);
      ApplyAt(s, e, capacity, j);
      if Uses(s, e) && i == 0 {
        if Find(s, e.key) < |s| { FindAt(s, Origin(s, e, j)); }
      }
    }
  }

  /** An entry that is still there after an event was there before it, behind no new keys but the
      one the event uses. */
  lemma ApplyFollows<K, P>(s: seq<Entry<K, P>>, e: Event<K, P>, capacity: nat, i: nat)
    requires capacity >= 1 && Distinct(s) && |s| <= capacity
    requires i < |Apply(s, e, capacity)| && !(Uses(s, e) && i == 0)
    ensures var t := Apply(s, e, capacity);
            var m := Find(s, t[i].key);
            m == Origin(s, e, i) && m < |s| && t[i] == s[m] && (Uses(s, e) || e.Drop? ==> t[i].key != e.key)
            && KeysOf(t[..i]) <= KeysOf(s[..m]) + (if Uses(s, e) then {e.key} else {})
  {
    var t := Apply(s, e, capacity);
    var m := Origin(s, e, i);
    ApplyAt(s, e, capacity, i);
    FindAt(s, m);
    forall x | x in KeysOf(t[..i]) ensures x in KeysOf(s[..m]) + (if Uses(s, e) then {e.key} else {}) {
      var y :| 0 <= y < i && t[..i][y].key == x;
      ApplyAt(s, e, capacity, y);
      if !(Uses(s, e) && y == 0) {
        assert s[..m][Origin(s, e, y)].key == x;
      }
    }
  }

  /** An event removes an entry only by dropping its key, or by pushing it off the end of a full
      list to make room for a new key. */
  lemma ApplySpares<K, P>(s: seq<Entry<K, P>>, e: Event<K, P>, capacity: nat, i: nat)
    requires capacity >= 1 && Distinct(s) && |s| <= capacity && i < |s|
    requires !(e.Drop? && e.key == s[i].key)
    requires !(e.Store? && !Has(s, e.key) && |s| == capacity && i == |s| - 1)
    ensures Has(Apply(s, e, capacity), s[i].key)
  {
    var t := Apply(s, e, capacity);
    var f := Find(s, e.key);
    var j := if Uses(s, e) then (if f == i then 0 else if f < i then i else i + 1)
             else if e.Drop? && f < i then i - 1 else i;
    if Uses(s, e) && f == i {
      ApplyAt(s, e, capacity, 0);
    } else {
      ApplyAt(s, e, capacity, j);
    }
    assert t[j].key == s[i].key;
  }

  /** Updating an entry in place and then moving it to the front is a store. */
  lemma UpdateThenTouch<K, P>(s: seq<Entry<K, P>>, i: nat, p: P, capacity: nat)
    requires Distinct(s) && i < |s|
    ensures Apply(s[i := Entry(s[i].key, p)], Touch(s[i].key), capacity) == Apply(s, Store(s[i].key, p), capacity)
  {
    var k := s[i].key;
    var u := s[i := Entry(k, p)];
    FindAt(s, i);
    FindAt(u, i);
    assert Without(u, k) == Without(s, k);
  }

  lemma UpdateThenStore<K, P>(s: seq<Entry<K, P>>, i: nat, p: P, q: P, capacity: nat)
    requires Distinct(s) && i < |s|
    ensures Apply(s[i := Entry(s[i].key, p)], Store(s[i].key, q), capacity) == Apply(s, Store(s[i].key, q), capacity)
  {
    var k := s[i].key;
    var u := s[i := Entry(k, p)];
    FindAt(s, i);
    FindAt(u, i);
    assert Without(u, k) == Without(s, k);
  }

  // ---- Facts about whole runs ----

  lemma {:induction false} RunKeeps<K, P>(trace: seq<Event<K, P>>, capacity: nat)
    requires capacity >= 1
    ensures Distinct(Run(trace, capacity)) && |Run(trace, capacity)| <= capacity
  {
    if trace != [] {
      var before := trace[..|trace| - 1];
      RunKeeps(before, capacity);
      ApplyKeeps(Run(before, capacity), trace[|trace| - 1], capacity);
    }
  }

  lemma {:induction false} RunAppend<K, P>(trace: seq<Event<K, P>>, es: seq<Event<K, P>>, capacity: nat)
    ensures Run(trace + es, capacity) == ApplyAll(Run(trace, capacity), es, capacity)
  {
    if es == [] {
      assert trace + es == trace;
    } else {
      assert (trace + es)[..|trace + es| - 1] == trace + es[..|es| - 1];
      RunAppend(trace, es[..|es| - 1], capacity);
    }
  }

  /** The entry kept for a key is the last one stored for it, and only keys used since its last
      use stand before it. */
  lemma {:induction false} KeptIsLatest<K, P>(trace: seq<Event<K, P>>, capacity: nat, k: K)
    requires capacity >= 1 && Has(Run(trace, capacity), k)
    ensures var s := Run(trace, capacity);
            LastStore(trace, k) == Some(s[Find(s, k)].payload)
            && KeysOf(s[..Find(s, k)]) <= UsedSince(trace, k, capacity)
  {
    var before := trace[..|trace| - 1];
    var e := trace[|trace| - 1];
    var s := Run(before, capacity);
    var t := Run(trace, capacity);
    var i := Find(t, k);
    RunKeeps(before, capacity);
    RunKeeps(trace, capacity);
    if Uses(s, e) && i == 0 {
      ApplyAt(s, e, capacity, 0);
      if e.Touch? { KeptIsLatest(before, capacity, k); }
    } else {
      ApplyFollows(s, e, capacity, i);
      KeptIsLatest(before, capacity, k);
    }
  }

  /** Least-recently-used eviction never takes a key too early: a stored, undropped key is still
      there as long as fewer than `capacity` distinct other keys were used after it. */
  lemma {:induction false} Retention<K, P>(trace: seq<Event<K, P>>, capacity: nat, k: K)
    requires capacity >= 1
    requires LastStore(trace, k).Some? && |UsedSince(trace, k, capacity)| < capacity
    ensures Has(Run(trace, capacity), k)
  {
    var before := trace[..|trace| - 1];
    var e := trace[|trace| - 1];
    var s := Run(before, capacity);
    RunKeeps(before, capacity);
    if Uses(s, e) && e.key == k {
      assert Run(trace, capacity)[0].key == k;
    } else {
      var since := UsedSince(trace, k, capacity);
      SubsetSize(UsedSince(before, k, capacity), since);
      Retention(before, capacity, k);
      var i := Find(s, k);
      var ahead := s[..i];
      KeptIsLatest(before, capacity, k);
      KeysOfSize(ahead);
      if e.Store? && !Has(s, e.key) {
        assert e.key !in KeysOf(ahead);
        SubsetSize(KeysOf(ahead) + {e.key}, since);
        assert i < capacity - 1;
      }
      ApplySpares(s, e, capacity, i);
    }
  }

  /** List order is last-use order, strictly. */
  lemma {:induction false} OrderedByLastUse<K, P>(trace: seq<Event<K, P>>, capacity: nat, i: nat, j: nat)
    requires capacity >= 1 && i <= j < |Run(trace, capacity)|
    ensures var s := Run(trace, capacity);
            0 < LastUse(trace, s[j].key)
            && (i < j ==> LastUse(trace, s[j].key) < LastUse(trace, s[i].key))
  {
    hide Apply, Find, Without;
    var before := trace[..|trace| - 1];
    var e := trace[|trace| - 1];
    var s := Run(before, capacity);
    RunKeeps(before, capacity);
    ApplyAt(s, e, capacity, i);
    ApplyAt(s, e, capacity, j);
    if Uses(s, e) && i == 0 {
      if j > 0 {
        ApplyFollows(s, e, capacity, j);
        OrderedByLastUse(before, capacity, Origin(s, e, j), Origin(s, e, j));
      }
    } else {
      OrderedByLastUse(before, capacity, Origin(s, e, i), Origin(s, e, j));
      ApplyFollows(s, e, capacity, i);
      ApplyFollows(s, e, capacity, j);
    }
  }

  // ---- What is added to a history ----

  lemma {:induction false} DropsInHistory<K, P>(trace: seq<Event<K, P>>, keys: seq<K>, k: K, capacity: nat)
    ensures LastStore(trace + Drops(keys), k) == if k in keys then None else LastStore(trace, k)
    ensures UsedSince(trace + Drops(keys), k, capacity) == UsedSince(trace, k, capacity)
  {
    hide Run, Find;
    var es := Drops<K, P>(keys);
    if keys == [] {
      assert trace + es == trace;
    } else {
      var front := keys[..|keys| - 1];
      DropsInHistory(trace, front, k, capacity);
      assert Drops<K, P>(front) == es[..|es| - 1];
      OneMore(trace, es);
      assert keys == front + [keys[|keys| - 1]];
    }
  }

  lemma OneMore<K, P>(before: seq<Event<K, P>>, es: seq<Event<K, P>>)
    requires |es| > 0
    ensures (before + es)[..|before + es| - 1] == before + es[..|es| - 1]
    ensures (before + es)[|before + es| - 1] == es[|es| - 1]
  {
  }

  lemma OneEvent<K, P>(before: seq<Event<K, P>>, e: Event<K, P>)
    ensures (before + [e])[..|before + [e]| - 1] == before && (before + [e])[|before + [e]| - 1] == e
    ensures before + [] == before
  {
  }

  lemma StoredEntry<K, P>(trace: seq<Event<K, P>>, capacity: nat, i: nat)
    requires capacity >= 1 && i < |Run(trace, capacity)|
    ensures var e := Run(trace, capacity)[i];
            LastStore(trace, e.key) == Some(e.payload)
  {
    RunKeeps(trace, capacity);
    FindAt(Run(trace, capacity), i);
    KeptIsLatest(trace, capacity, Run(trace, capacity)[i].key);
  }
}
