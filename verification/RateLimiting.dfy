/** The sliding-window request limiter: a queue of accepted times per client, and the clients in a
    recency list of bounded size. */
module RateLimiting {
  import opened Wrappers
  import opened Recency
  import opened LinkedMap

  datatype Config = Config(capacity: nat, maxRequests: nat, window: nat)

  datatype Request = Request(client: string, now: int)

  type Histories = seq<Entry<string, seq<int>>>

  /** A queue without its leading times before the cutoff. */
  function Pruned(stamps: seq<int>, cutoff: int): seq<int> {
    if stamps == [] || stamps[0] >= cutoff then stamps else Pruned(stamps[1..], cutoff)
  }

  /** The verdict on a request and the state after it. */
  function Step(s: Histories, q: Request, cfg: Config): (Histories, bool) {
    var i := Find(s, q.client);
    if i == |s| then
      (Apply(s, Store(q.client, [q.now]), cfg.capacity), true)
    else
      var stamps := Pruned(s[i].payload, q.now - cfg.window);
      if |stamps| >= cfg.maxRequests then (s[i := Entry(q.client, stamps)], false)
      else (Apply(s, Store(q.client, stamps + [q.now]), cfg.capacity), true)
  }

  lemma PositionOnly(list: seq<Node<string, seq<int>>>, index: map<string, Node<string, seq<int>>>,
                     n: Node<string, seq<int>>)
    requires Agree(list, index) && n in list
    ensures forall i :: 0 <= i < |list| && i != Position(list, n) ==> list[i] != n
  {
  }

  class RateLimiter {
    const cfg: Config
    var histories: seq<Node<string, seq<int>>>
    var index: map<string, Node<string, seq<int>>>

    ghost predicate Valid()
      reads this
    {
      cfg.capacity >= 1 && |histories| <= cfg.capacity && Agree(histories, index)
    }

    ghost function Entries(): Histories
      reads this, histories
    {
      LinkedMap.Entries(histories)
    }

    ghost function Nodes(): set<Node<string, seq<int>>>
      reads this
    {
      set i | 0 <= i < |histories| :: histories[i]
    }

    constructor (capacity: nat, maxRequests: nat, windowMs: nat)
      requires capacity >= 1
      ensures Valid() && cfg == Config(capacity, maxRequests, windowMs) && Entries() == []
    {
      cfg := Config(capacity, maxRequests, windowMs);
      histories := [];
      index := map[];
    }

    method AllowRequest(clientId: string, now: int) returns (allowed: bool)
      requires Valid()
      modifies this, Nodes()
      ensures Valid() && fresh(Nodes() - old(Nodes()))
      ensures Entries() == Step(old(Entries()), Request(clientId, now), cfg).0
      ensures allowed == Step(old(Entries()), Request(clientId, now), cfg).1
    {
      AgreeFind(histories, index, clientId);
      if clientId !in index {
        NewClient(clientId, now);
        return true;
      }
      allowed := KnownClient(index[clientId], now);
    }

    /** The part of `AllowRequest` after the client is found. */
    method KnownClient(history: Node<string, seq<int>>, now: int) returns (allowed: bool)
      requires Valid() && history in histories
      modifies this, history
      ensures Valid() && Nodes() == old(Nodes())
      ensures Entries() == Step(old(Entries()), Request(history.key, now), cfg).0
      ensures allowed == Step(old(Entries()), Request(history.key, now), cfg).1
      ensures var recent := Pruned(old(history.payload), now - cfg.window);
              && (allowed <==> |recent| < cfg.maxRequests)
              && history.payload == if allowed then recent + [now] else recent
      ensures !allowed ==> histories == old(histories)
    {
      hide Agree, Pruned, Find, Apply, Position;
      ghost var before := Entries();
      AgreeFind(histories, index, history.key);
      Prune(history, now - cfg.window);
      if |history.payload| >= cfg.maxRequests {
        return false;
      }
      UpdateThenStore(before, Find(before, history.key), history.payload, history.payload + [now], cfg.capacity);
      Record(history, now);
      return true;
    }

    /** The loop that drops the times before the cutoff. */
    method Prune(history: Node<string, seq<int>>, cutoff: int)
      requires Valid() && history in histories
      modifies history
      ensures Valid() && history.payload == Pruned(old(history.payload), cutoff)
      ensures Entries() == old(Entries())[Position(histories, history) := Entry(history.key, history.payload)]
    {
      hide Agree;
      ghost var before := Entries();
      PositionOnly(histories, index, history);
      while history.payload != [] && history.payload[0] < cutoff
        invariant Pruned(history.payload, cutoff) == Pruned(old(history.payload), cutoff)
        invariant Entries() == before[Position(histories, history) := Entry(history.key, history.payload)]
        decreases |history.payload|
      {
        history.payload := history.payload[1..];
      }
    }

    /** A request of a known client is recorded and the client moves to the front. */
    method Record(history: Node<string, seq<int>>, now: int)
      requires Valid() && history in histories
      modifies this, history
      ensures Valid() && Nodes() == old(Nodes())
      ensures Entries() == Apply(old(Entries()), Store(history.key, old(history.payload) + [now]), cfg.capacity)
      ensures history.payload == old(history.payload) + [now]
    {
      ghost var before := Entries();
      ghost var i := Position(histories, history);
      AgreeFind(histories, index, history.key);
      history.payload := history.payload + [now];
      assert Entries() == before[i := Entry(history.key, history.payload)];
      UpdateThenTouch(before, i, history.payload, cfg.capacity);
      MoveToFront(history);
    }

    method MoveToFront(history: Node<string, seq<int>>)
      requires Valid() && history in histories
      modifies this`histories
      ensures Valid() && Nodes() == old(Nodes())
      ensures Entries() == Apply(old(Entries()), Touch(history.key), cfg.capacity)
    {
      hide Find, Apply;
      SpliceAgrees(histories, index, history.key, cfg.capacity);
      histories := Spliced(histories, history);
    }

    /** A new client is allowed at once; the least recently allowed one leaves a full list. */
    method NewClient(clientId: string, now: int)
      requires Valid() && clientId !in index
      modifies this
      ensures Valid() && fresh(Nodes() - old(Nodes()))
      ensures Entries() == [Entry(clientId, [now])] + Evicted(old(Entries()), cfg.capacity)
    {
      if |histories| >= cfg.capacity {
        DropLast();
      }
      ghost var before := Entries();
      var node := new Node(clientId, [now]);
      assert LinkedMap.Entries(histories) == before;
      LinkAgrees(histories, index, node);
      histories := [node] + histories;
      index := index[clientId := node];
    }

    method DropLast()
      requires Valid() && |histories| > 0
      modifies this
      ensures Valid() && |histories| < cfg.capacity && Nodes() <= old(Nodes())
      ensures index.Keys <= old(index.Keys)
      ensures Entries() == old(Entries())[..|old(Entries())| - 1]
    {
      var last := histories[|histories| - 1];
      EraseAgrees(histories, index, last.key, cfg.capacity);
      AgreeFind(histories, index, last.key);
      index := index - {last.key};
      histories := histories[..|histories| - 1];
    }
  }

  // ---- The limiter with unlimited history ----

  /** The times at which a client was allowed, in order. */
  function TimesOf(log: seq<Request>, client: string): seq<int> {
    if log == [] then []
    else
      var before := TimesOf(log[..|log| - 1], client);
      var q := log[|log| - 1];
      if q.client == client then before + [q.now] else before
  }

  function CountFrom(stamps: seq<int>, from: int): (n: nat)
    ensures n <= |stamps|
  {
    if stamps == [] then 0
    else CountFrom(stamps[..|stamps| - 1], from) + if stamps[|stamps| - 1] >= from then 1 else 0
  }

  /** A request is allowed exactly when fewer than the maximum were allowed in the window before it. */
  predicate Allows(log: seq<Request>, q: Request, cfg: Config) {
    CountFrom(TimesOf(log, q.client), q.now - cfg.window) < cfg.maxRequests
  }

  /** Everything the unlimited limiter allows in a run of requests. */
  function Log(qs: seq<Request>, cfg: Config): seq<Request> {
    if qs == [] then []
    else
      var log := Log(qs[..|qs| - 1], cfg);
      var q := qs[|qs| - 1];
      if Allows(log, q, cfg) then log + [q] else log
  }

  function SpecVerdicts(qs: seq<Request>, cfg: Config): seq<bool> {
    if qs == [] then []
    else
      var init := qs[..|qs| - 1];
      SpecVerdicts(init, cfg) + [Allows(Log(init, cfg), qs[|qs| - 1], cfg)]
  }

  // ---- Runs of the real limiter ----

  function State(qs: seq<Request>, cfg: Config): Histories {
    if qs == [] then [] else Step(State(qs[..|qs| - 1], cfg), qs[|qs| - 1], cfg).0
  }

  function Verdicts(qs: seq<Request>, cfg: Config): seq<bool> {
    if qs == [] then []
    else
      var init := qs[..|qs| - 1];
      Verdicts(init, cfg) + [Step(State(init, cfg), qs[|qs| - 1], cfg).1]
  }

  ghost predicate InOrder(qs: seq<Request>) {
    forall i, j :: 0 <= i <= j < |qs| ==> qs[i].now <= qs[j].now
  }

  ghost predicate Sorted(s: seq<int>) {
    forall i, j :: 0 <= i <= j < |s| ==> s[i] <= s[j]
  }

  /** The clients allowed at some time in the closed interval `[from, from + length]`. */
  ghost function ClientsWithin(log: seq<Request>, from: int, length: nat): set<string> {
    set i | 0 <= i < |log| && from <= log[i].now <= from + length :: log[i].client
  }

  /** The load condition: no closed window sees more allowed clients than the limiter can hold. */
  ghost predicate LoadFits(log: seq<Request>, cfg: Config) {
    forall from :: |ClientsWithin(log, from, cfg.window)| <= cfg.capacity
  }

  // ---- Counting in sorted times ----

  lemma {:induction false} PrunedCuts(stamps: seq<int>, cutoff: int)
    ensures var r := Pruned(stamps, cutoff);
            |r| <= |stamps| && r == stamps[|stamps| - |r|..] && (r != [] ==> r[0] >= cutoff)
            && forall i :: 0 <= i < |stamps| - |r| ==> stamps[i] < cutoff
  {
    if stamps != [] && stamps[0] < cutoff {
      PrunedCuts(stamps[1..], cutoff);
      var r := Pruned(stamps, cutoff);
      assert forall i :: 1 <= i < |stamps| ==> stamps[i] == stamps[1..][i - 1];
    }
  }

  lemma {:induction false} CountCut(stamps: seq<int>, from: int, p: nat)
    requires p <= |stamps|
    requires forall i :: 0 <= i < p ==> stamps[i] < from
    requires forall i :: p <= i < |stamps| ==> stamps[i] >= from
    ensures CountFrom(stamps, from) == |stamps| - p
  {
    if stamps != [] {
      CountCut(stamps[..|stamps| - 1], from, if p == |stamps| then p - 1 else p);
    }
  }

  /** Where the times from `from` on begin. */
  lemma FirstFrom(stamps: seq<int>, from: int) returns (p: nat)
    requires Sorted(stamps)
    ensures p <= |stamps| && CountFrom(stamps, from) == |stamps| - p
    ensures forall i :: 0 <= i < p ==> stamps[i] < from
    ensures forall i :: p <= i < |stamps| ==> stamps[i] >= from
  {
    PrunedCuts(stamps, from);
    p := |stamps| - |Pruned(stamps, from)|;
    CountCut(stamps, from, p);
  }

  /** `held` is what is left of `all` after times before `cutoff` are dropped from its front. */
  ghost predicate Recent(held: seq<int>, all: seq<int>, cutoff: int) {
    && |held| <= |all| && held == all[|all| - |held|..]
    && forall i :: 0 <= i < |all| - |held| ==> all[i] < cutoff
  }

  lemma RecentCount(held: seq<int>, all: seq<int>, cutoff: int, from: int)
    requires Sorted(all) && Recent(held, all, cutoff) && cutoff <= from
    ensures CountFrom(all, from) == |Pruned(held, from)| && Recent(Pruned(held, from), all, from)
  {
    PrunedCuts(held, from);
    var r := Pruned(held, from);
    var p := |all| - |r|;
    assert all[p..] == r;
    forall i | 0 <= i < p ensures all[i] < from {
      if i >= |all| - |held| { assert all[i] == held[i - (|all| - |held|)]; }
    }
    forall i | p <= i < |all| ensures all[i] >= from {
      assert all[p] == r[0];
    }
    CountCut(all, from, p);
  }

  /** At most `m` of the times lie in any closed interval of length `w`: consecutive ones `m` apart are
      further apart than that. */
  ghost predicate Spaced(stamps: seq<int>, m: nat, w: nat) {
    forall i, j :: 0 <= i && j == i + m && j < |stamps| ==> stamps[j] - stamps[i] > w
  }

  lemma SpacedCount(stamps: seq<int>, m: nat, w: nat, from: int)
    requires Sorted(stamps) && Spaced(stamps, m, w)
    ensures CountFrom(stamps, from) - CountFrom(stamps, from + w + 1) <= m
  {
    var p := FirstFrom(stamps, from);
    var q := FirstFrom(stamps, from + w + 1);
    assert p + m < |stamps| ==> stamps[p + m] - stamps[p] > w;
  }

  lemma SpacedAppend(stamps: seq<int>, m: nat, w: nat, now: int)
    requires Sorted(stamps) && Spaced(stamps, m, w) && CountFrom(stamps, now - w) < m
    requires forall i :: 0 <= i < |stamps| ==> stamps[i] <= now
    ensures Sorted(stamps + [now]) && Spaced(stamps + [now], m, w)
  {
    var p := FirstFrom(stamps, now - w);
  }

  // ---- The list of clients ----

  function Held(s: Histories, client: string): seq<int> {
    var i := Find(s, client);
    if i < |s| then s[i].payload else []
  }

  /** The client list is in order of the last allowed time, and no queue in it is empty. */
  ghost predicate Ranked(s: Histories, now: int, capacity: nat) {
    && Distinct(s) && |s| <= capacity
    && (forall i :: 0 <= i < |s| ==> s[i].payload != [] && s[i].payload[|s[i].payload| - 1] <= now)
    && (forall i, j :: 0 <= i < j < |s| ==>
          s[j].payload[|s[j].payload| - 1] <= s[i].payload[|s[i].payload| - 1])
  }

  lemma RankedMeans(s: Histories, now: int, capacity: nat)
    requires Ranked(s, now, capacity)
    ensures Distinct(s) && |s| <= capacity
  {
  }

  /** The client that a request pushes out of a full list. */
  predicate PushesOut(s: Histories, q: Request, capacity: nat, client: string) {
    Find(s, q.client) == |s| && |s| == capacity && |s| > 0 && s[|s| - 1].key == client
  }

  lemma HeldAfterStore(s: Histories, q: Request, stamps: seq<int>, capacity: nat, client: string)
    requires capacity >= 1 && Distinct(s) && |s| <= capacity
    ensures Held(Apply(s, Store(q.client, stamps), capacity), client)
            == if client == q.client then stamps
               else if PushesOut(s, q, capacity, client) then [] else Held(s, client)
  {
    var e := Store(q.client, stamps);
    var t := Apply(s, e, capacity);
    var i := Find(t, client);
    if client != q.client {
      ApplyKeeps(s, e, capacity);
      if s != [] { FindAt(s, |s| - 1); }
      if i < |t| {
        ApplyFollows(s, e, capacity, i);
      } else if Has(s, client) {
        if !PushesOut(s, q, capacity, client) {
          ApplySpares(s, e, capacity, Find(s, client));
        }
      }
    }
  }

  lemma RankedAfterStore(s: Histories, q: Request, stamps: seq<int>, now: int, capacity: nat)
    requires capacity >= 1 && Ranked(s, now, capacity) && now <= q.now
    ensures Ranked(Apply(s, Store(q.client, stamps + [q.now]), capacity), q.now, capacity)
  {
    hide Find, Without, Apply;
    var e := Store(q.client, stamps + [q.now]);
    var t := Apply(s, e, capacity);
    ApplyKeeps(s, e, capacity);
    forall i | 0 <= i < |t| ensures t[i].payload != [] && t[i].payload[|t[i].payload| - 1] <= q.now {
      RankedAt(s, q, stamps, now, capacity, i);
    }
    forall i, j | 0 <= i < j < |t|
      ensures t[j].payload[|t[j].payload| - 1] <= t[i].payload[|t[i].payload| - 1]
    {
      RankedAt(s, q, stamps, now, capacity, i);
      RankedAt(s, q, stamps, now, capacity, j);
    }
  }

  /** The entry at `i` after a store: the stored one in front, and behind it those that were listed, in order. */
  lemma RankedAt(s: Histories, q: Request, stamps: seq<int>, now: int, capacity: nat, i: nat)
    requires capacity >= 1 && Ranked(s, now, capacity) && now <= q.now
    requires i < |Apply(s, Store(q.client, stamps + [q.now]), capacity)|
    ensures var e := Store(q.client, stamps + [q.now]);
            var t := Apply(s, e, capacity);
            && t[i].payload != [] && t[i].payload[|t[i].payload| - 1] <= q.now
            && (i == 0 ==> t[i].payload[|t[i].payload| - 1] == q.now)
            && (i > 0 ==> 0 <= Origin(s, e, i) < |s| && t[i] == s[Origin(s, e, i)])
  {
    hide Find, Without, Apply;
    ApplyAt(s, Store(q.client, stamps + [q.now]), capacity, i);
  }

  lemma HeldAfterPrune(s: Histories, i: nat, stamps: seq<int>, client: string)
    requires Distinct(s) && i < |s|
    ensures Held(s[i := Entry(s[i].key, stamps)], client) == if client == s[i].key then stamps else Held(s, client)
  {
    var t := s[i := Entry(s[i].key, stamps)];
    FindAt(s, i);
    FindAt(t, i);
    if Has(s, client) {
      FindAt(t, Find(s, client));
    } else {
      assert forall j :: 0 <= j < |t| ==> t[j].key == s[j].key;
    }
  }

  lemma RankedAfterPrune(s: Histories, i: nat, now: int, later: int, cutoff: int, capacity: nat)
    requires Ranked(s, now, capacity) && now <= later && i < |s| && Pruned(s[i].payload, cutoff) != []
    ensures Ranked(s[i := Entry(s[i].key, Pruned(s[i].payload, cutoff))], later, capacity)
  {
    PrunedCuts(s[i].payload, cutoff);
  }

  /** What a step leaves of each client's queue. */
  lemma HeldAfterStep(s: Histories, q: Request, now: int, cfg: Config, client: string)
    requires cfg.capacity >= 1 && cfg.maxRequests >= 1 && Ranked(s, now, cfg.capacity) && now <= q.now
    ensures Ranked(Step(s, q, cfg).0, q.now, cfg.capacity)
    ensures Held(Step(s, q, cfg).0, client)
            == if client == q.client then
                 Pruned(Held(s, client), q.now - cfg.window) + (if Step(s, q, cfg).1 then [q.now] else [])
               else if PushesOut(s, q, cfg.capacity, client) then [] else Held(s, client)
  {
    hide Ranked, Apply;
    var i := Find(s, q.client);
    var stamps := Pruned(Held(s, q.client), q.now - cfg.window);
    RankedMeans(s, now, cfg.capacity);
    if Step(s, q, cfg).1 {
      assert stamps + [q.now] == if i == |s| then [q.now] else stamps + [q.now];
      HeldAfterStore(s, q, stamps + [q.now], cfg.capacity, client);
      RankedAfterStore(s, q, stamps, now, cfg.capacity);
    } else {
      assert stamps + [] == stamps;
      HeldAfterPrune(s, i, stamps, client);
      RankedAfterPrune(s, i, now, q.now, q.now - cfg.window, cfg.capacity);
    }
  }

  ghost predicate Limits(cfg: Config) {
    cfg.capacity >= 1 && cfg.maxRequests >= 1
  }

  /** `all` is a sorted record of times up to `now`, and `held` is its part still in a queue. */
  ghost predicate Known(held: seq<int>, all: seq<int>, now: int, cfg: Config) {
    Sorted(all) && Recent(held, all, now - cfg.window) && forall i :: 0 <= i < |all| ==> all[i] <= now
  }

  /** The verdict seen from any record of the client's times that the queue is a recent part of. */
  lemma VerdictByCount(s: Histories, q: Request, all: seq<int>, cfg: Config)
    requires Limits(cfg) && Known(Held(s, q.client), all, q.now, cfg)
    ensures Step(s, q, cfg).1 <==> CountFrom(all, q.now - cfg.window) < cfg.maxRequests
    ensures Known(Pruned(Held(s, q.client), q.now - cfg.window), all, q.now, cfg)
  {
    hide CountFrom, Apply, Find, Sorted;
    RecentCount(Held(s, q.client), all, q.now - cfg.window, q.now - cfg.window);
  }

  lemma KnownAppend(held: seq<int>, all: seq<int>, now: int, cfg: Config)
    requires Known(held, all, now, cfg)
    ensures Known(held + [now], all + [now], now, cfg)
  {
  }

  /** A step adds the request to the record of its client when it is allowed, and leaves the records of
      the other clients that stay. */
  lemma KnownAfterStep(s: Histories, q: Request, client: string, all: seq<int>, cfg: Config)
    requires Limits(cfg) && Ranked(s, q.now, cfg.capacity) && Known(Held(s, client), all, q.now, cfg)
    requires !PushesOut(s, q, cfg.capacity, client) || client == q.client
    ensures var allowed := Step(s, q, cfg).1 && client == q.client;
            Known(Held(Step(s, q, cfg).0, client), if allowed then all + [q.now] else all, q.now, cfg)
  {
    hide Step, Held, Pruned, Ranked, Find, PushesOut, Known, CountFrom;
    HeldAfterStep(s, q, q.now, cfg, client);
    if client == q.client {
      VerdictByCount(s, q, all, cfg);
      var cut := Pruned(Held(s, client), q.now - cfg.window);
      KnownAppend(cut, all, q.now, cfg);
      assert cut + [] == cut;
    }
  }

  // ---- Without assuming anything about the load ----

  /** The times at which a client was allowed since it last entered the list, as long as it stays. */
  function Stay(qs: seq<Request>, client: string, cfg: Config): seq<int> {
    if qs == [] then []
    else
      var init := qs[..|qs| - 1];
      var q := qs[|qs| - 1];
      var before := Stay(init, client, cfg);
      if q.client == client then (if Step(State(init, cfg), q, cfg).1 then before + [q.now] else before)
      else if PushesOut(State(init, cfg), q, cfg.capacity, client) then [] else before
  }

  function LastTime(qs: seq<Request>): int {
    if qs == [] then 0 else qs[|qs| - 1].now
  }

  ghost predicate InOrderUpTo(qs: seq<Request>, now: int) {
    InOrder(qs) && (qs != [] ==> LastTime(qs) <= now)
  }

  lemma KnownLater(s: Histories, client: string, all: seq<int>, now: int, later: int, cfg: Config)
    requires Ranked(s, now, cfg.capacity) && Known(Held(s, client), all, now, cfg) && now <= later
    ensures Ranked(s, later, cfg.capacity) && Known(Held(s, client), all, later, cfg)
  {
  }

  lemma {:induction false} StayInvariant(qs: seq<Request>, client: string, now: int, cfg: Config)
    requires Limits(cfg) && InOrderUpTo(qs, now)
    ensures Ranked(State(qs, cfg), now, cfg.capacity)
    ensures Known(Held(State(qs, cfg), client), Stay(qs, client, cfg), now, cfg)
    ensures Spaced(Stay(qs, client, cfg), cfg.maxRequests, cfg.window)
  {
    if qs != [] {
      hide Step, Spaced, Held, PushesOut, Known, Ranked;
      var init := qs[..|qs| - 1];
      StayInvariant(init, client, qs[|qs| - 1].now, cfg);
      StayStep(State(init, cfg), qs[|qs| - 1], client, Stay(init, client, cfg), cfg);
      KnownLater(State(qs, cfg), client, Stay(qs, client, cfg), qs[|qs| - 1].now, now, cfg);
    }
  }

  lemma KnownSorted(held: seq<int>, all: seq<int>, now: int, cfg: Config)
    requires Known(held, all, now, cfg)
    ensures Sorted(all) && forall i :: 0 <= i < |all| ==> all[i] <= now
  {
  }

  lemma NothingKnown(now: int, cfg: Config)
    ensures Known([], [], now, cfg) && Spaced([], cfg.maxRequests, cfg.window)
  {
  }

  lemma StayStep(s: Histories, q: Request, client: string, all: seq<int>, cfg: Config)
    requires Limits(cfg) && Ranked(s, q.now, cfg.capacity) && Known(Held(s, client), all, q.now, cfg)
    requires Spaced(all, cfg.maxRequests, cfg.window)
    ensures Ranked(Step(s, q, cfg).0, q.now, cfg.capacity)
    ensures var all' := if q.client == client then (if Step(s, q, cfg).1 then all + [q.now] else all)
                        else if PushesOut(s, q, cfg.capacity, client) then [] else all;
            && Known(Held(Step(s, q, cfg).0, client), all', q.now, cfg)
            && Spaced(all', cfg.maxRequests, cfg.window)
  {
    hide Step, Ranked, Known, Spaced, Held, Sorted, CountFrom, PushesOut;
    NothingKnown(q.now, cfg);
    HeldAfterStep(s, q, q.now, cfg, client);
    if q.client == client || !PushesOut(s, q, cfg.capacity, client) {
      KnownAfterStep(s, q, client, all, cfg);
      if q.client == client && Step(s, q, cfg).1 {
        VerdictByCount(s, q, all, cfg);
        KnownSorted(Held(s, client), all, q.now, cfg);
        SpacedAppend(all, cfg.maxRequests, cfg.window, q.now);
      }
    }
  }

  /** While a client stays in the list, a request of it is refused exactly when the maximum was already
      allowed in the closed window that ends now; a client not in the list is allowed. */
  lemma RefusedExactly(qs: seq<Request>, q: Request, cfg: Config)
    requires Limits(cfg) && InOrderUpTo(qs, q.now)
    ensures !Step(State(qs, cfg), q, cfg).1
            <==> CountFrom(Stay(qs, q.client, cfg), q.now - cfg.window) == cfg.maxRequests
  {
    StayInvariant(qs, q.client, q.now, cfg);
    RefusedByCount(State(qs, cfg), q, Stay(qs, q.client, cfg), cfg);
  }

  lemma RefusedByCount(s: Histories, q: Request, all: seq<int>, cfg: Config)
    requires Limits(cfg) && Known(Held(s, q.client), all, q.now, cfg)
    requires Spaced(all, cfg.maxRequests, cfg.window)
    ensures !Step(s, q, cfg).1 <==> CountFrom(all, q.now - cfg.window) == cfg.maxRequests
  {
    hide Step, Held, CountFrom, Sorted, Pruned, Spaced;
    VerdictByCount(s, q, all, cfg);
    SpacedCount(all, cfg.maxRequests, cfg.window, q.now - cfg.window);
    CountCut(all, q.now + 1, |all|);
  }

  /** At most the maximum is allowed to a client in any closed window while it stays in the list. */
  lemma WindowSafety(qs: seq<Request>, client: string, from: int, cfg: Config)
    requires Limits(cfg) && InOrder(qs)
    ensures CountFrom(Stay(qs, client, cfg), from) - CountFrom(Stay(qs, client, cfg), from + cfg.window + 1)
            <= cfg.maxRequests
  {
    hide Stay, State, Held, CountFrom;
    StayInvariant(qs, client, LastTime(qs), cfg);
    SpacedCount(Stay(qs, client, cfg), cfg.maxRequests, cfg.window, from);
  }

  // ---- Under the load condition ----

  lemma {:induction false} TimesInLog(log: seq<Request>, client: string, t: int) returns (i: nat)
    requires t in TimesOf(log, client)
    ensures i < |log| && log[i] == Request(client, t)
  {
    var n := |log| - 1;
    if log[n] == Request(client, t) {
      i := n;
    } else {
      i := TimesInLog(log[..n], client, t);
    }
  }

  ghost predicate AllKnown(s: Histories, log: seq<Request>, now: int, cfg: Config) {
    forall k :: Known(Held(s, k), TimesOf(log, k), now, cfg)
  }

  /** A listed client was allowed, according to the log, at the last time in its queue. */
  lemma ListedInLog(s: Histories, log: seq<Request>, now: int, cfg: Config, i: nat) returns (j: nat)
    requires Ranked(s, now, cfg.capacity) && AllKnown(s, log, now, cfg) && i < |s|
    ensures j < |log| && log[j] == Request(s[i].key, s[i].payload[|s[i].payload| - 1])
  {
    FindAt(s, i);
    var k := s[i].key;
    var all := TimesOf(log, k);
    assert Known(Held(s, k), all, now, cfg);
    j := TimesInLog(log, k, all[|all| - 1]);
  }

  /** When a full list makes room for a newcomer although its last client was allowed inside the window,
      the window sees more clients than the limiter can hold. */
  lemma CrowdedWindow(s: Histories, log: seq<Request>, q: Request, cfg: Config)
    requires cfg.capacity >= 1 && Ranked(s, q.now, cfg.capacity) && AllKnown(s, log, q.now, cfg)
    requires !Has(s, q.client) && |s| == cfg.capacity
    requires var p := s[|s| - 1].payload; p[|p| - 1] >= q.now - cfg.window
    ensures |ClientsWithin(log + [q], q.now - cfg.window, cfg.window)| > cfg.capacity
  {
    var from := q.now - cfg.window;
    var within := ClientsWithin(log + [q], from, cfg.window);
    forall k | k in KeysOf(s) ensures k in within {
      var i :| 0 <= i < |s| && s[i].key == k;
      var j := ListedInLog(s, log, q.now, cfg, i);
      assert (log + [q])[j] == log[j];
    }
    assert (log + [q])[|log|] == q;
    KeysOfSize(s);
    assert q.client !in KeysOf(s);
    SubsetSize(KeysOf(s) + {q.client}, within);
  }

  lemma {:induction false} LogPrefix(qs: seq<Request>, cfg: Config)
    requires qs != [] && LoadFits(Log(qs, cfg), cfg)
    ensures LoadFits(Log(qs[..|qs| - 1], cfg), cfg)
  {
    var log, before := Log(qs, cfg), Log(qs[..|qs| - 1], cfg);
    forall from ensures |ClientsWithin(before, from, cfg.window)| <= cfg.capacity {
      forall k | k in ClientsWithin(before, from, cfg.window) ensures k in ClientsWithin(log, from, cfg.window) {
        var i :| 0 <= i < |before| && from <= before[i].now <= from + cfg.window && before[i].client == k;
        assert log[i] == before[i];
      }
      SubsetSize(ClientsWithin(before, from, cfg.window), ClientsWithin(log, from, cfg.window));
    }
  }

  lemma TimesAppend(log: seq<Request>, q: Request, client: string)
    ensures TimesOf(log + [q], client)
            == if q.client == client then TimesOf(log, client) + [q.now] else TimesOf(log, client)
  {
    assert (log + [q])[..|log|] == log;
  }

  lemma SimulatesStep(s: Histories, log: seq<Request>, q: Request, cfg: Config)
    requires Limits(cfg) && Ranked(s, q.now, cfg.capacity) && AllKnown(s, log, q.now, cfg)
    requires LoadFits(if Allows(log, q, cfg) then log + [q] else log, cfg)
    ensures Step(s, q, cfg).1 == Allows(log, q, cfg)
    ensures Ranked(Step(s, q, cfg).0, q.now, cfg.capacity)
    ensures AllKnown(Step(s, q, cfg).0, if Allows(log, q, cfg) then log + [q] else log, q.now, cfg)
  {
    hide Step, Known, Ranked, LoadFits, TimesOf, Held, CountFrom;
    var allowed := Allows(log, q, cfg);
    var log' := if allowed then log + [q] else log;
    var t := Step(s, q, cfg).0;
    assert Known(Held(s, q.client), TimesOf(log, q.client), q.now, cfg);
    VerdictByCount(s, q, TimesOf(log, q.client), cfg);
    HeldAfterStep(s, q, q.now, cfg, q.client);
    forall k ensures Known(Held(t, k), TimesOf(log', k), q.now, cfg) {
      SimulatesClient(s, log, q, cfg, k);
    }
  }

  /** The client pushed out of a full list keeps a true record: all its times are out of the window. */
  lemma PushedOutKnown(s: Histories, log: seq<Request>, q: Request, cfg: Config, k: string)
    requires Limits(cfg) && Ranked(s, q.now, cfg.capacity) && AllKnown(s, log, q.now, cfg)
    requires PushesOut(s, q, cfg.capacity, k) && LoadFits(log + [q], cfg)
    ensures Known([], TimesOf(log, k), q.now, cfg)
  {
    hide TimesOf, ClientsWithin;
    var all := TimesOf(log, k);
    var p := s[|s| - 1].payload;
    FindAt(s, |s| - 1);
    assert Known(Held(s, k), all, q.now, cfg);
    assert |ClientsWithin(log + [q], q.now - cfg.window, cfg.window)| <= cfg.capacity;
    if p[|p| - 1] >= q.now - cfg.window {
      CrowdedWindow(s, log, q, cfg);
    }
    assert all[|all| - 1] == p[|p| - 1];
  }

  lemma SimulatesClient(s: Histories, log: seq<Request>, q: Request, cfg: Config, k: string)
    requires Limits(cfg) && Ranked(s, q.now, cfg.capacity) && AllKnown(s, log, q.now, cfg)
    requires Step(s, q, cfg).1 == Allows(log, q, cfg)
    requires LoadFits(if Allows(log, q, cfg) then log + [q] else log, cfg)
    ensures Known(Held(Step(s, q, cfg).0, k), TimesOf(if Allows(log, q, cfg) then log + [q] else log, k), q.now, cfg)
  {
    hide Allows, TimesOf, Pruned, Known, Ranked, LoadFits, Held, Find;
    assert Known(Held(s, k), TimesOf(log, k), q.now, cfg);
    TimesAppend(log, q, k);
    if k == q.client || !PushesOut(s, q, cfg.capacity, k) {
      KnownAfterStep(s, q, k, TimesOf(log, k), cfg);
    } else {
      HeldAfterStep(s, q, q.now, cfg, k);
      PushedOutKnown(s, log, q, cfg, k);
    }
  }

  /** The simulation: every queue is the recent part of what the unlimited limiter knows. */
  lemma {:induction false} Simulates(qs: seq<Request>, now: int, cfg: Config)
    requires Limits(cfg) && InOrderUpTo(qs, now) && LoadFits(Log(qs, cfg), cfg)
    ensures Verdicts(qs, cfg) == SpecVerdicts(qs, cfg)
    ensures Ranked(State(qs, cfg), now, cfg.capacity) && AllKnown(State(qs, cfg), Log(qs, cfg), now, cfg)
  {
    if qs != [] {
      var init := qs[..|qs| - 1];
      var q := qs[|qs| - 1];
      LogPrefix(qs, cfg);
      Simulates(init, q.now, cfg);
      SimulatesStep(State(init, cfg), Log(init, cfg), q, cfg);
      Later(State(qs, cfg), Log(qs, cfg), q.now, now, cfg);
    }
  }

  lemma Later(s: Histories, log: seq<Request>, now: int, later: int, cfg: Config)
    requires Ranked(s, now, cfg.capacity) && AllKnown(s, log, now, cfg) && now <= later
    ensures Ranked(s, later, cfg.capacity) && AllKnown(s, log, later, cfg)
  {
    forall k ensures Known(Held(s, k), TimesOf(log, k), later, cfg) {
      assert Known(Held(s, k), TimesOf(log, k), now, cfg);
      KnownLater(s, k, TimesOf(log, k), now, later, cfg);
    }
    KnownLater(s, "", TimesOf(log, ""), now, later, cfg);
  }

  /** Eviction loses nothing that matters: as long as no closed window sees more allowed clients than
      the limiter can hold, every verdict of the run is the one of a limiter with unlimited history. */
  lemma EvictionIsLossless(qs: seq<Request>, cfg: Config)
    requires Limits(cfg) && InOrder(qs) && LoadFits(Log(qs, cfg), cfg)
    ensures Verdicts(qs, cfg) == SpecVerdicts(qs, cfg)
  {
    Simulates(qs, LastTime(qs), cfg);
  }

  // ---- The bound on the load is exact ----

  /** At most `n` distinct clients are allowed inside any closed interval of the window's length. */
  ghost predicate LoadWithin(log: seq<Request>, window: nat, n: nat) {
    forall from :: |ClientsWithin(log, from, window)| <= n
  }

  /** Distinct names, by their lengths. */
  function Name(i: nat): (s: string)
    ensures |s| == i + 1
  {
    seq(i + 1, _ => 'a')
  }

  /** Up to `m` requests of one client, then one each of `j` others, all at time 0. */
  function Flood(m: nat, j: nat): seq<Request>
    decreases m + j
  {
    if j > 0 then Flood(m, j - 1) + [Request(Name(j), 0)]
    else if m > 0 then Flood(m - 1, 0) + [Request(Name(0), 0)] else []
  }

  lemma {:induction false} FloodCount(m: nat, j: nat, k: nat)
    ensures |TimesOf(Flood(m, j), Name(k))| == if k == 0 then m else if k <= j then 1 else 0
    decreases m + j
  {
    hide Name, TimesOf;
    if j > 0 {
      FloodCount(m, j - 1, k);
      TimesAppend(Flood(m, j - 1), Request(Name(j), 0), Name(k));
    } else if m > 0 {
      FloodCount(m - 1, 0, k);
      TimesAppend(Flood(m - 1, 0), Request(Name(0), 0), Name(k));
    } else {
      NoTimes(Name(k));
    }
  }

  lemma NoTimes(client: string)
    ensures TimesOf([], client) == []
  {
  }

  /** Names up to a length. */
  ghost function NamesUpTo(n: nat): (r: set<string>)
    ensures |r| <= n + 1
    ensures forall i: nat :: i <= n ==> Name(i) in r
  {
    if n == 0 then {Name(0)} else NamesUpTo(n - 1) + {Name(n)}
  }

  lemma {:induction false} FloodRequests(m: nat, j: nat)
    ensures forall q :: q in Flood(m, j) ==> q.now == 0 && q.client in NamesUpTo(j)
    decreases m + j
  {
    hide Name;
    if j > 0 {
      FloodRequests(m, j - 1);
    } else if m > 0 {
      FloodRequests(m - 1, 0);
    }
  }

  lemma {:induction false} TimesZero(log: seq<Request>, client: string)
    requires forall q :: q in log ==> q.now == 0
    ensures forall i :: 0 <= i < |TimesOf(log, client)| ==> TimesOf(log, client)[i] == 0
  {
    if log != [] {
      assert forall q :: q in log[..|log| - 1] ==> q in log;
      TimesZero(log[..|log| - 1], client);
      assert log[|log| - 1] in log;
    }
  }

  lemma {:induction false} CountZeros(stamps: seq<int>, from: int)
    requires from <= 0 && forall i :: 0 <= i < |stamps| ==> stamps[i] == 0
    ensures CountFrom(stamps, from) == |stamps|
  {
    if stamps != [] {
      CountZeros(stamps[..|stamps| - 1], from);
    }
  }

  /** The count in the window that ends at time 0. */
  lemma FloodWindow(m: nat, j: nat, k: nat, cfg: Config)
    ensures CountFrom(TimesOf(Flood(m, j), Name(k)), 0 - cfg.window) == if k == 0 then m else if k <= j then 1 else 0
  {
    hide Flood, Name, TimesOf, CountFrom;
    FloodCount(m, j, k);
    FloodRequests(m, j);
    TimesZero(Flood(m, j), Name(k));
    CountZeros(TimesOf(Flood(m, j), Name(k)), 0 - cfg.window);
  }

  /** The limiter with unlimited history allows the whole flood. */
  lemma {:induction false} FloodLog(m: nat, j: nat, cfg: Config)
    requires Limits(cfg) && m <= cfg.maxRequests
    ensures Log(Flood(m, j), cfg) == Flood(m, j)
    decreases m + j
  {
    hide TimesOf, CountFrom, Name, Log, State, Verdicts, SpecVerdicts, Step;
    LogNone(cfg);
    if j > 0 {
      FloodLog(m, j - 1, cfg);
      FloodWindow(m, j - 1, j, cfg);
      LogNext(Flood(m, j - 1), Request(Name(j), 0), cfg);
    } else if m > 0 {
      FloodLog(m - 1, 0, cfg);
      FloodWindow(m - 1, 0, 0, cfg);
      LogNext(Flood(m - 1, 0), Request(Name(0), 0), cfg);
    }
  }

  lemma LogNone(cfg: Config)
    ensures Log([], cfg) == [] && State([], cfg) == []
  {
  }

  lemma LogNext(qs: seq<Request>, q: Request, cfg: Config)
    ensures Log(qs + [q], cfg) == if Allows(Log(qs, cfg), q, cfg) then Log(qs, cfg) + [q] else Log(qs, cfg)
    ensures State(qs + [q], cfg) == Step(State(qs, cfg), q, cfg).0
    ensures Verdicts(qs + [q], cfg) == Verdicts(qs, cfg) + [Step(State(qs, cfg), q, cfg).1]
    ensures SpecVerdicts(qs + [q], cfg) == SpecVerdicts(qs, cfg) + [Allows(Log(qs, cfg), q, cfg)]
  {
    hide Allows, Step;
    assert (qs + [q])[..|qs|] == qs;
  }

  /** The list holds none but the flood's clients, and the latest of the others in front. */
  ghost predicate Flooded(s: Histories, j: nat, capacity: nat) {
    && |s| <= capacity
    && (forall i :: 0 <= i < |s| ==> |s[i].key| <= j + 1)
    && (forall i :: 0 <= i < j && i < capacity ==> i < |s| && s[i].key == Name(j - i))
  }

  lemma {:induction false} FloodState(m: nat, j: nat, cfg: Config)
    requires Limits(cfg)
    ensures Flooded(State(Flood(m, j), cfg), j, cfg.capacity)
    decreases m + j
  {
    hide Name, Log, State, Verdicts, SpecVerdicts, Step, Allows;
    LogNone(cfg);
    if j > 0 {
      FloodState(m, j - 1, cfg);
      LogNext(Flood(m, j - 1), Request(Name(j), 0), cfg);
      NewcomerInFront(State(Flood(m, j - 1), cfg), j, cfg);
    } else if m > 0 {
      FloodState(m - 1, 0, cfg);
      LogNext(Flood(m - 1, 0), Request(Name(0), 0), cfg);
      StaysFirst(State(Flood(m - 1, 0), cfg), cfg);
    }
  }

  lemma NewcomerInFront(s: Histories, j: nat, cfg: Config)
    requires Limits(cfg) && j > 0 && Flooded(s, j - 1, cfg.capacity)
    ensures Flooded(Step(s, Request(Name(j), 0), cfg).0, j, cfg.capacity)
  {
    hide Name, Pruned;
    assert Find(s, Name(j)) == |s|;
    var kept := Evicted(s, cfg.capacity);
    assert Step(s, Request(Name(j), 0), cfg).0 == [Entry(Name(j), [0])] + kept;
    assert forall i :: 0 <= i < |kept| ==> kept[i] == s[i];
  }

  lemma StaysFirst(s: Histories, cfg: Config)
    requires Limits(cfg) && Flooded(s, 0, cfg.capacity)
    ensures Flooded(Step(s, Request(Name(0), 0), cfg).0, 0, cfg.capacity)
  {
    hide Pruned, Find;
    var q, t := Request(Name(0), 0), Step(s, Request(Name(0), 0), cfg).0;
    assert |Name(0)| == 1;
    assert forall i :: 0 <= i < |Without(s, q.client)| ==> Without(s, q.client)[i] in s;
  }

  lemma FloodLoad(m: nat, j: nat, window: nat)
    ensures LoadWithin(Flood(m, j), window, j + 1)
  {
    hide Name, Flood;
    FloodRequests(m, j);
    forall from ensures |ClientsWithin(Flood(m, j), from, window)| <= j + 1 {
      forall c | c in ClientsWithin(Flood(m, j), from, window) ensures c in NamesUpTo(j) {
        var i :| 0 <= i < |Flood(m, j)| && c == Flood(m, j)[i].client;
        assert Flood(m, j)[i] in Flood(m, j);
      }
      SubsetSize(ClientsWithin(Flood(m, j), from, window), NamesUpTo(j));
    }
  }

  /** One client more than the limiter can hold is enough, whatever the configuration: a client at its
      maximum is pushed out, and its next request is allowed once too often. */
  lemma FloodForgets(cfg: Config)
    requires Limits(cfg)
    ensures var qs := Flood(cfg.maxRequests, cfg.capacity) + [Request(Name(0), 0)];
            && InOrder(qs) && LoadWithin(Log(qs, cfg), cfg.window, cfg.capacity + 1)
            && Verdicts(qs, cfg) != SpecVerdicts(qs, cfg)
  {
    hide Flood, Name, Step, TimesOf, CountFrom, State, Log, Verdicts, SpecVerdicts, LoadWithin, Flooded;
    var m, c := cfg.maxRequests, cfg.capacity;
    var flood, q := Flood(m, c), Request(Name(0), 0);
    FloodRequests(m, c);
    FloodLog(m, c, cfg);
    FloodWindow(m, c, 0, cfg);
    LogNext(flood, q, cfg);
    FloodState(m, c, cfg);
    ForgottenAllowed(State(flood, cfg), q, cfg);
    FloodLoad(m, c, cfg.window);
    assert forall i :: 0 <= i < |flood| ==> flood[i] in flood;
    LastDiffers(Verdicts(flood, cfg), SpecVerdicts(flood, cfg), Step(State(flood, cfg), q, cfg).1,
                Allows(flood, q, cfg));
  }

  lemma ForgottenAllowed(s: Histories, q: Request, cfg: Config)
    requires Limits(cfg) && Flooded(s, cfg.capacity, cfg.capacity) && |q.client| == 1
    ensures Step(s, q, cfg).1
  {
    hide Pruned;
    assert forall i :: 0 <= i < |s| ==> s[i].key == Name(cfg.capacity - i);
    assert Find(s, q.client) == |s|;
  }

  lemma LastDiffers<T>(a: seq<T>, b: seq<T>, x: T, y: T)
    requires x != y
    ensures a + [x] != b + [y]
  {
    assert |a| == |b| ==> (a + [x])[|a|] != (b + [y])[|a|];
  }

  /** Among the runs whose load is at most `n` clients a window, every one keeps the verdicts of unlimited
      history exactly when the limiter can hold `n` clients. */
  lemma LosslessExactly(cfg: Config, n: nat)
    requires Limits(cfg)
    ensures (forall qs :: InOrder(qs) && LoadWithin(Log(qs, cfg), cfg.window, n) ==>
                            Verdicts(qs, cfg) == SpecVerdicts(qs, cfg))
            <==> n <= cfg.capacity
  {
    hide InOrder, Log, Verdicts, SpecVerdicts, ClientsWithin;
    if n <= cfg.capacity {
      forall qs | InOrder(qs) && LoadWithin(Log(qs, cfg), cfg.window, n)
        ensures Verdicts(qs, cfg) == SpecVerdicts(qs, cfg)
      {
        EvictionIsLossless(qs, cfg);
      }
    } else {
      FloodForgets(cfg);
    }
  }
}
