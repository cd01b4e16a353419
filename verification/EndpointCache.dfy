/** The addresses of service methods, cached for a second after they are read from ZooKeeper. */
module EndpointCache {
  import opened Strings
  import opened Wrappers

  /** The host as it stands before the colon, and the port after it. */
  datatype Address = Address(ip: string, port: string)

  datatype Entry = Entry(addr: Address, expire: int)

  type Cache = map<string, Entry>

  const TTL := 1000

  datatype Resolution = Found(addr: Address) | NotExist | Invalid

  /** The data of a node: empty when the node is missing, invalid without a colon. */
  function Resolved(hostData: string): Resolution {
    if hostData == "" then NotExist
    else
      var idx := Find(hostData, ':');
      if idx.None? then Invalid else Found(Address(hostData[..idx.value], hostData[idx.value + 1..]))
  }

  /** The address of well-formed data is its two halves: nothing but the first colon is dropped. */
  lemma ResolvedHalves(hostData: string)
    ensures Resolved(hostData).Found? <==> ':' in hostData
    ensures Resolved(hostData).Found? ==>
              var a := Resolved(hostData).addr;
              hostData == a.ip + ":" + a.port && ':' !in a.ip
    ensures Resolved(hostData).NotExist? <==> hostData == ""
  {
  }

  predicate Hit(c: Cache, path: string, now: int) {
    path in c && now < c[path].expire
  }

  class AddressCache {
    var entries: Cache

    constructor ()
      ensures entries == map[]
    {
      entries := map[];
    }

    /** `hostData` is what ZooKeeper gives if it is asked. */
    method ResolveEndpoint(path: string, now: int, hostData: string) returns (r: Resolution, asked: bool)
      modifies this
      ensures asked == !Hit(old(entries), path, now)
      ensures !asked ==> r == Found(old(entries)[path].addr) && entries == old(entries)
      ensures asked ==> r == Resolved(hostData)
                        && entries == if r.Found? then old(entries)[path := Entry(r.addr, now + TTL)] else old(entries)
      ensures asked && r.Found? ==> forall later :: Hit(entries, path, later) <==> later < now + 1000
    {
      if path in entries && now < entries[path].expire {
        return Found(entries[path].addr), false;
      }
      asked := true;
      if hostData == "" { return NotExist, asked; }
      var idx := Find(hostData, ':');
      if idx.None? { return Invalid, asked; }
      var ip, port := hostData[..idx.value], hostData[idx.value + 1..];
      var out := Address(ip, port);
      entries := entries[path := Entry(out, now + TTL)];
      r := Found(out);
    }
  }

  /** An address that ZooKeeper gave is returned again without asking, exactly for the next 1000 ms. */
  method ResolveTwice(cache: AddressCache, path: string, now: int, hostData: string, later: int, laterData: string)
    returns (first: Resolution, again: Resolution, asked: bool)
    requires !Hit(cache.entries, path, now) && ':' in hostData
    modifies cache
    ensures first.Found? && hostData == first.addr.ip + ":" + first.addr.port
    ensures (asked <==> later >= now + 1000) && (!asked ==> again == first)
  {
    hide Resolved;
    ResolvedHalves(hostData);
    first, asked := cache.ResolveEndpoint(path, now, hostData);
    again, asked := cache.ResolveEndpoint(path, later, laterData);
  }

  // ---- Many threads ----

  type CallId = nat

  /** A call reads the clock first, looks under the lock, asks ZooKeeper without it, and stores under it
      again with the time it read first. */
  datatype Call = Started(path: string, now: int) | Missed(path: string, now: int)
                | Fetched(path: string, now: int, addr: Address)
                | Returned(path: string, now: int, addr: Address, cached: bool) | Failed

  /** ZooKeeper gave this address for this path at this time. */
  datatype Read = Read(path: string, addr: Address, time: int)

  datatype State = State(clock: int, cache: Cache, calls: map<CallId, Call>, log: set<Read>)

  datatype Step =
    | Tick(time: int)
    | Start(id: CallId, path: string)
    | Look(id: CallId)
    | Ask(id: CallId, hostData: string)
    | Store(id: CallId)

  predicate Enabled(s: State, step: Step) {
    match step
    case Tick(time) => s.clock <= time
    case Start(id, _) => id !in s.calls
    case Look(id) => id in s.calls && s.calls[id].Started?
    case Ask(id, _) => id in s.calls && s.calls[id].Missed?
    case Store(id) => id in s.calls && s.calls[id].Fetched?
  }

  function Next(s: State, step: Step): State
    requires Enabled(s, step)
  {
    match step
    case Tick(time) => s.(clock := time)
    case Start(id, path) => s.(calls := s.calls[id := Started(path, s.clock)])
    case Look(id) =>
      var call := s.calls[id];
      s.(calls := s.calls[id := if Hit(s.cache, call.path, call.now)
                                then Returned(call.path, call.now, s.cache[call.path].addr, true)
                                else Missed(call.path, call.now)])
    case Ask(id, hostData) =>
      var call, r := s.calls[id], Resolved(hostData);
      if r.Found? then
        s.(calls := s.calls[id := Fetched(call.path, call.now, r.addr)],
           log := s.log + {Read(call.path, r.addr, s.clock)})
      else s.(calls := s.calls[id := Failed])
    case Store(id) =>
      var call := s.calls[id];
      s.(cache := s.cache[call.path := Entry(call.addr, call.now + TTL)],
         calls := s.calls[id := Returned(call.path, call.now, call.addr, false)])
  }

  function Run(start: int, steps: seq<Step>): Option<State> {
    if |steps| == 0 then Some(State(start, map[], map[], {}))
    else
      var before := Run(start, steps[..|steps| - 1]);
      var step := steps[|steps| - 1];
      if before.Some? && Enabled(before.value, step) then Some(Next(before.value, step)) else None
  }

  /** ZooKeeper gave the address for the path, less than a second before `now` or after it. */
  ghost predicate Recent(log: set<Read>, path: string, addr: Address, now: int) {
    exists r :: r in log && r.path == path && r.addr == addr && now < r.time + TTL
  }

  ghost predicate CallOk(s: State, call: Call) {
    match call
    case Started(_, now) => now <= s.clock
    case Missed(_, now) => now <= s.clock
    case Fetched(path, now, addr) => now <= s.clock && Recent(s.log, path, addr, now + TTL - 1)
    case Returned(path, now, addr, _) => Recent(s.log, path, addr, now)
    case Failed => true
  }

  ghost predicate Inv(s: State) {
    && (forall path :: path in s.cache ==> Recent(s.log, path, s.cache[path].addr, s.cache[path].expire - 1))
    && (forall id :: id in s.calls ==> CallOk(s, s.calls[id]))
  }

  lemma RecentGrows(log: set<Read>, more: set<Read>, path: string, addr: Address, now: int, earlier: int)
    requires Recent(log, path, addr, now) && log <= more && earlier <= now
    ensures Recent(more, path, addr, earlier)
  {
    var r :| r in log && r.path == path && r.addr == addr && now < r.time + TTL;
    assert r in more;
  }

  lemma StepKeeps(s: State, step: Step)
    requires Inv(s) && Enabled(s, step)
    ensures Inv(Next(s, step))
  {
    hide Resolved, Recent;
    var s' := Next(s, step);
    if step.Ask? && Resolved(step.hostData).Found? {
      JustRead(s, s', s.calls[step.id].path, Resolved(step.hostData).addr, s.calls[step.id].now);
    }
    if step.Look? && Hit(s.cache, s.calls[step.id].path, s.calls[step.id].now) {
      var entry := s.cache[s.calls[step.id].path];
      RecentGrows(s.log, s.log, s.calls[step.id].path, entry.addr, entry.expire - 1, s.calls[step.id].now);
    }
    if step.Store? {
      var call := s.calls[step.id];
      RecentGrows(s.log, s.log, call.path, call.addr, call.now + TTL - 1, call.now);
    }
    forall path | path in s.cache ensures Recent(s'.log, path, s.cache[path].addr, s.cache[path].expire - 1) {
      RecentGrows(s.log, s'.log, path, s.cache[path].addr, s.cache[path].expire - 1, s.cache[path].expire - 1);
    }
    forall id | id in s.calls ensures CallOk(s', s.calls[id]) {
      CallStaysOk(s, s', s.calls[id]);
    }
  }

  lemma CallStaysOk(s: State, s': State, call: Call)
    requires CallOk(s, call) && s.clock <= s'.clock && s.log <= s'.log
    ensures CallOk(s', call)
  {
    hide Recent;
    match call
    case Fetched(path, now, addr) => RecentGrows(s.log, s'.log, path, addr, now + TTL - 1, now + TTL - 1);
    case Returned(path, now, addr, _) => RecentGrows(s.log, s'.log, path, addr, now, now);
    case _ =>
  }

  lemma JustRead(s: State, s': State, path: string, addr: Address, now: int)
    requires now <= s.clock && s'.log == s.log + {Read(path, addr, s.clock)}
    ensures Recent(s'.log, path, addr, now + TTL - 1)
  {
    var r := Read(path, addr, s.clock);
    assert r in s'.log;
  }

  lemma {:induction false} RunKeeps(start: int, steps: seq<Step>)
    requires Run(start, steps).Some?
    ensures Inv(Run(start, steps).value)
  {
    if |steps| > 0 {
      hide Inv, Enabled, Next;
      RunKeeps(start, steps[..|steps| - 1]);
      StepKeeps(Run(start, steps[..|steps| - 1]).value, steps[|steps| - 1]);
    }
  }

  /** Every address returned, from the cache or not, was read from ZooKeeper for that very path less than
      1000 ms before the time the call had read from the clock, or later. */
  lemma AddressIsRecent(start: int, steps: seq<Step>, id: CallId)
    requires Run(start, steps).Some? && id in Run(start, steps).value.calls
    requires Run(start, steps).value.calls[id].Returned?
    ensures var s := Run(start, steps).value;
            var call := s.calls[id];
            exists r :: r in s.log && r.path == call.path && r.addr == call.addr && call.now - r.time < TTL
  {
    hide Run;
    RunKeeps(start, steps);
    var s := Run(start, steps).value;
    assert CallOk(s, s.calls[id]);
    var call := s.calls[id];
    var r :| r in s.log && r.path == call.path && r.addr == call.addr && call.now < r.time + TTL;
    assert call.now - r.time < TTL;
  }

  // ---- What is found in the cache ----

  /** The address stored last for a path, and the time that its call had read. */
  function LastStored(start: int, steps: seq<Step>, path: string): Option<(Address, int)> {
    if |steps| == 0 then None
    else
      var earlier, step := steps[..|steps| - 1], steps[|steps| - 1];
      var before := Run(start, earlier);
      if before.Some? && step.Store? && Enabled(before.value, step) && before.value.calls[step.id].path == path then
        Some((before.value.calls[step.id].addr, before.value.calls[step.id].now))
      else LastStored(start, earlier, path)
  }

  lemma {:induction false} CacheHoldsLast(start: int, steps: seq<Step>, path: string)
    requires Run(start, steps).Some?
    ensures var s, last := Run(start, steps).value, LastStored(start, steps, path);
            && (path in s.cache <==> last.Some?)
            && (last.Some? ==> s.cache[path] == Entry(last.value.0, last.value.1 + 1000))
  {
    hide Resolved;
    if |steps| > 0 {
      CacheHoldsLast(start, steps[..|steps| - 1], path);
    }
  }

  /** Over every run, a call that looks finds an address exactly when the last one stored for its path came
      with a time less than 1000 ms before its own, and then it returns that address without asking. */
  lemma LookExactly(start: int, steps: seq<Step>, id: CallId)
    requires Run(start, steps).Some? && Enabled(Run(start, steps).value, Look(id))
    ensures var s := Run(start, steps).value;
            var path, now := s.calls[id].path, s.calls[id].now;
            var last := LastStored(start, steps, path);
            Next(s, Look(id)).calls[id]
            == if last.Some? && now < last.value.1 + 1000 then Returned(path, now, last.value.0, true)
               else Missed(path, now)
  {
    hide Run, LastStored;
    CacheHoldsLast(start, steps, Run(start, steps).value.calls[id].path);
  }

  /** A call that finds nothing and whose node has no address fails and caches nothing. */
  lemma MissFails(s: State, id: CallId, hostData: string)
    requires Enabled(s, Ask(id, hostData)) && ':' !in hostData
    ensures Next(s, Ask(id, hostData)) == s.(calls := s.calls[id := Failed])
  {
    hide Resolved;
    ResolvedHalves(hostData);
  }

  /** From every state of a run, a call that finds nothing and whose node has an address returns that
      address, and it is the last one stored. */
  lemma MissResolves(start: int, steps: seq<Step>, id: CallId, hostData: string)
    requires Run(start, steps).Some? && ':' in hostData
    requires id in Run(start, steps).value.calls && Run(start, steps).value.calls[id].Missed?
    ensures var path, now := Run(start, steps).value.calls[id].path, Run(start, steps).value.calls[id].now;
            var more := steps + [Ask(id, hostData)] + [Store(id)];
            && Run(start, more).Some? && LastStored(start, more, path).Some?
            && var (addr, t) := LastStored(start, more, path).value;
            && Run(start, more).value.calls[id] == Returned(path, now, addr, false) && t == now
            && hostData == addr.ip + ":" + addr.port && ':' !in addr.ip
  {
    hide Resolved;
    ResolvedHalves(hostData);
    var s := Run(start, steps).value;
    var asked := steps + [Ask(id, hostData)];
    assert asked[..|steps|] == steps;
    assert Run(start, asked) == Some(Next(s, Ask(id, hostData)));
    assert (asked + [Store(id)])[..|asked|] == asked;
  }
}
