/** The MySQL connection pool: its data as a class, and the calls of many threads as a step system
    over the same data.  The mutex makes each section between taking it and waiting or leaving one
    step. */
module MySqlPool {
  import opened Wrappers

  /** A connection is the number of the attempt that opened it. */
  type Conn = nat

  /** The connections opened by the first `n` attempts, some of which fail. */
  function Opened(connects: nat -> bool, n: nat): (r: seq<Conn>)
    ensures |r| <= n && forall i :: 0 <= i < |r| ==> r[i] < n && connects(r[i])
    ensures forall c: nat :: c < n && connects(c) ==> c in r
    ensures forall i, j :: 0 <= i < j < |r| ==> r[i] < r[j]
  {
    if n == 0 then [] else if connects(n - 1) then Opened(connects, n - 1) + [n - 1] else Opened(connects, n - 1)
  }

  lemma OpenedNext(connects: nat -> bool, n: nat)
    ensures Opened(connects, 0) == []
    ensures Opened(connects, n + 1)
            == if connects(n) then Opened(connects, n) + [n] else Opened(connects, n)
  {
  }

  /** These are the first `n` attempts that succeed, each once and in their order. */
  ghost predicate Exactly(conns: seq<Conn>, connects: nat -> bool, n: nat) {
    && (forall c: nat :: c in conns <==> c < n && connects(c))
    && (forall i, j :: 0 <= i < j < |conns| ==> conns[i] < conns[j])
  }

  lemma OpenedExactly(connects: nat -> bool, n: nat)
    ensures Exactly(Opened(connects, n), connects, n)
  {
    hide Opened;
  }

  /** The target size after `configure`: the environment wins over the default, the argument over both. */
  function Configured(target: nat, env: Option<int>, poolSize: nat): nat {
    if poolSize > 0 then poolSize
    else if env.Some? && 0 < env.value < 10000 then env.value else target
  }

  datatype Pool = Pool(free: seq<Conn>, all: seq<Conn>, target: nat, initialized: bool)

  function Initialized(p: Pool, connects: nat -> bool): Pool {
    if p.initialized then p
    else
      var conns := Opened(connects, p.target);
      p.(free := p.free + conns, all := p.all + conns, initialized := true)
  }

  class MySQLPool {
    var free: seq<Conn>
    var all: seq<Conn>
    var targetSize: nat
    var initialized: bool

    function Value(): Pool
      reads this
    {
      Pool(free, all, targetSize, initialized)
    }

    /** Every connection is kept once, the free ones among all. */
    ghost predicate Sound()
      reads this
    {
      && (forall i, j :: 0 <= i < j < |free| ==> free[i] != free[j])
      && (forall i, j :: 0 <= i < j < |all| ==> all[i] != all[j])
      && (forall c :: c in free ==> c in all)
      && (!initialized ==> all == [])
    }

    /** The connections in someone's hands. */
    ghost function Leased(): set<Conn>
      reads this
    {
      set c | c in all && c !in free
    }

    constructor ()
      ensures Sound() && Leased() == {} && Value() == Pool([], [], 8, false)
    {
      free, all, targetSize, initialized := [], [], 8, false;
    }

    /** `env` is the number in the environment variable, if it is set. */
    method Configure(poolSize: nat, env: Option<int>)
      modifies this
      ensures Value() == if old(initialized) then old(Value())
                         else old(Value()).(target := Configured(old(targetSize), env, poolSize))
      ensures old(initialized) ==> targetSize == old(targetSize)
      ensures !old(initialized) && poolSize > 0 ==> targetSize == poolSize
      ensures !old(initialized) && poolSize == 0 && env.Some? && 0 < env.value < 10000 ==> targetSize == env.value
      ensures poolSize == 0 && (env.None? || env.value <= 0 || env.value >= 10000) ==> targetSize == old(targetSize)
    {
      if initialized { return; }
      if env.Some? {
        var v := env.value;
        if 0 < v < 10000 { targetSize := v; }
      }
      if poolSize > 0 { targetSize := poolSize; }
    }

    method EnsureInitialized(connects: nat -> bool)
      requires Sound()
      modifies this
      ensures Sound() && Leased() == old(Leased()) && Value() == Initialized(old(Value()), connects)
      ensures initialized && targetSize == old(targetSize)
      ensures old(initialized) ==> free == old(free) && all == old(all)
      ensures !old(initialized) ==> Exactly(all, connects, targetSize) && free == all
    {
      hide Opened, Sound, Exactly, Leased;
      if initialized { return; }
      NothingYet();
      OpenedNext(connects, 0);
      for i := 0 to targetSize
        invariant free == all == Opened(connects, i)
        invariant targetSize == old(targetSize) && !initialized
      {
        OpenedNext(connects, i);
        if connects(i) {
          all := all + [i];
          free := free + [i];
        }
      }
      initialized := true;
      OpenedExactly(connects, targetSize);
      AllFree(connects);
    }

    lemma NothingYet()
      requires Sound() && !initialized
      ensures free == [] == all && Leased() == {}
    {
      NothingFree(free, all);
    }

    lemma AllFree(connects: nat -> bool)
      requires free == all && initialized && Exactly(all, connects, targetSize)
      ensures Sound() && Leased() == {}
    {
    }

    /** What `acquire` and `acquire_for` do once the wait predicate holds. */
    method TakeFront() returns (raw: Conn)
      requires Sound() && free != []
      modifies this`free
      ensures Sound() && old(free) == [raw] + free
      ensures raw !in old(Leased()) && Leased() == old(Leased()) + {raw}
    {
      raw := free[0];
      assert forall c :: c in free <==> c == raw || c in free[1..];
      free := free[1..];
    }

    /** Only what was leased comes back, and only once; it waits behind the connections already free. */
    method Release(conn: Conn)
      requires Sound() && conn in Leased()
      modifies this`free
      ensures Sound() && Leased() == old(Leased()) - {conn} && free == old(free) + [conn]
    {
      free := free + [conn];
    }
  }

  lemma NothingFree(free: seq<Conn>, all: seq<Conn>)
    requires forall c :: c in free ==> c in all
    ensures all == [] ==> free == []
  {
    if free != [] {
      assert free[0] in free;
    }
  }

  // ---- Many threads ----

  type Thread = nat

  /** A thread inside `acquire` (untimed) or `acquire_for` (timed).  An awake waiter has left the
      condition variable and has yet to look at the pool again under the mutex; `expired` when its
      time is over, so that it will not wait again. */
  datatype Waiter = Sleeping(timed: bool) | Awake(timed: bool, expired: bool)

  datatype State = State(pool: Pool, waiters: map<Thread, Waiter>, leased: set<Conn>)

  datatype Step =
    | Enter(t: Thread, timed: bool, connects: nat -> bool)
    | Recheck(t: Thread)
    | Return(conn: Conn, woken: Option<Thread>)
    | SpuriousWake(t: Thread)
    | TimeOut(t: Thread)

  function Sleepers(s: State): set<Thread> {
    set t | t in s.waiters && s.waiters[t].Sleeping?
  }

  function AwakeOnes(s: State): set<Thread> {
    set t | t in s.waiters && s.waiters[t].Awake?
  }

  predicate Enabled(s: State, step: Step) {
    match step
    case Enter(t, _, _) => t !in s.waiters
    case Recheck(t) => t in AwakeOnes(s)
    case Return(c, woken) =>
      // The notification wakes one sleeper, whichever it is, when there is one.
      c in s.leased && (if woken.Some? then woken.value in Sleepers(s) else Sleepers(s) == {})
    case SpuriousWake(t) => t in Sleepers(s)
    case TimeOut(t) => t in s.waiters && s.waiters[t].timed
  }

  /** The front connection goes to the thread that looked. */
  function Lease(s: State): State
    requires s.pool.free != []
  {
    State(s.pool.(free := s.pool.free[1..]), s.waiters, s.leased + {s.pool.free[0]})
  }

  function Next(s: State, step: Step): State
    requires Enabled(s, step)
  {
    match step
    case Enter(t, timed, connects) =>
      var s' := s.(pool := Initialized(s.pool, connects));
      if s'.pool.free != [] then Lease(s') else s'.(waiters := s.waiters[t := Sleeping(timed)])
    case Recheck(t) =>
      var w := s.waiters[t];
      if s.pool.free != [] then Lease(s.(waiters := s.waiters - {t}))
      else if w.expired then s.(waiters := s.waiters - {t})
      else s.(waiters := s.waiters[t := Sleeping(w.timed)])
    case Return(c, woken) =>
      var s' := State(s.pool.(free := s.pool.free + [c]), s.waiters, s.leased - {c});
      if woken.Some? then s'.(waiters := s.waiters[woken.value := Awake(s.waiters[woken.value].timed, false)]) else s'
    case SpuriousWake(t) => s.(waiters := s.waiters[t := Awake(s.waiters[t].timed, false)])
    case TimeOut(t) => s.(waiters := s.waiters[t := Awake(true, true)])
  }

  function Initial(target: nat): State {
    State(Pool([], [], target, false), map[], {})
  }

  /** The state after a run, unless one of its steps cannot happen where it stands. */
  function Run(target: nat, steps: seq<Step>): Option<State> {
    if |steps| == 0 then Some(Initial(target))
    else
      var before := Run(target, steps[..|steps| - 1]);
      var step := steps[|steps| - 1];
      if before.Some? && Enabled(before.value, step) then Some(Next(before.value, step)) else None
  }

  ghost function Elements(s: seq<Conn>): set<Conn> {
    set c | c in s
  }

  /** Every connection is either free or leased, and is so once. */
  ghost predicate Conserved(s: State) {
    && (forall i, j :: 0 <= i < j < |s.pool.free| ==> s.pool.free[i] != s.pool.free[j])
    && (forall i, j :: 0 <= i < j < |s.pool.all| ==> s.pool.all[i] != s.pool.all[j])
    && (forall c :: c in s.pool.all <==> c in s.pool.free || c in s.leased)
    && (forall c :: c in s.pool.free ==> c !in s.leased)
    && (!s.pool.initialized ==> s.pool.all == [] && s.waiters == map[])
    && |s.pool.all| <= s.pool.target
  }

  /** While anyone sleeps, enough others are awake to take every free connection. */
  ghost predicate NoLostWakeUp(s: State) {
    Sleepers(s) != {} ==> |s.pool.free| <= |AwakeOnes(s)|
  }

  lemma ConservedStep(s: State, step: Step)
    requires Conserved(s) && Enabled(s, step)
    ensures Conserved(Next(s, step))
  {
    hide Lease, Initialized, Opened;
    match step
    case Enter(_, _, connects) =>
      var s' := s.(pool := Initialized(s.pool, connects));
      InitializedConserved(s, connects);
      if s'.pool.free != [] { LeaseConserved(s'); }
    case Recheck(t) =>
      if s.pool.free != [] { LeaseConserved(s.(waiters := s.waiters - {t})); }
    case Return(_, _) =>
    case SpuriousWake(_) =>
    case TimeOut(_) =>
  }

  lemma InitializedConserved(s: State, connects: nat -> bool)
    requires Conserved(s)
    ensures Conserved(s.(pool := Initialized(s.pool, connects))) && Initialized(s.pool, connects).initialized
  {
    var p, conns := s.pool, Opened(connects, s.pool.target);
    assert |p.free| > 0 ==> p.free[0] in p.all;
    assert !p.initialized ==> p.free + conns == conns && p.all + conns == conns;
  }

  lemma LeaseConserved(s: State)
    requires Conserved(s) && s.pool.free != []
    ensures Conserved(Lease(s))
  {
    var free := s.pool.free;
    assert forall c :: c in free <==> c == free[0] || c in free[1..];
  }

  /** How a change of one waiter changes the two groups. */
  lemma GroupsAfter(s: State, s': State, t: Thread)
    requires forall x :: x != t ==> (x in s'.waiters <==> x in s.waiters)
    requires forall x :: x != t && x in s.waiters ==> s'.waiters[x] == s.waiters[x]
    ensures forall x :: x != t ==> (x in AwakeOnes(s') <==> x in AwakeOnes(s))
    ensures forall x :: x != t ==> (x in Sleepers(s') <==> x in Sleepers(s))
    ensures |AwakeOnes(s')|
            == |AwakeOnes(s)| - (if t in AwakeOnes(s) then 1 else 0) + (if t in AwakeOnes(s') then 1 else 0)
  {
    GroupsBut(s, s', t);
    hide AwakeOnes, Sleepers;
    SizeChange(AwakeOnes(s), AwakeOnes(s'), t);
  }

  lemma GroupsBut(s: State, s': State, t: Thread)
    requires forall x :: x != t ==> (x in s'.waiters <==> x in s.waiters)
    requires forall x :: x != t && x in s.waiters ==> s'.waiters[x] == s.waiters[x]
    ensures forall x :: x != t ==> (x in AwakeOnes(s') <==> x in AwakeOnes(s))
    ensures forall x :: x != t ==> (x in Sleepers(s') <==> x in Sleepers(s))
  {
  }

  lemma SizeChange<T>(a: set<T>, a': set<T>, t: T)
    requires forall x :: x != t ==> (x in a' <==> x in a)
    ensures |a'| == |a| - (if t in a then 1 else 0) + (if t in a' then 1 else 0)
  {
    assert a' - {t} == a - {t};
    SizeBut(a, t);
    SizeBut(a', t);
  }

  lemma SizeBut<T>(a: set<T>, t: T)
    ensures |a - {t}| == |a| - (if t in a then 1 else 0)
  {
  }

  lemma NoLostWakeUpStep(s: State, step: Step)
    requires Conserved(s) && NoLostWakeUp(s) && Enabled(s, step)
    ensures NoLostWakeUp(Next(s, step))
  {
    var s' := Next(s, step);
    match step
    case Enter(t, _, _) =>
      if s'.waiters != s.waiters { GroupsAfter(s, s', t); } else {
        assert Sleepers(s') == Sleepers(s) && AwakeOnes(s') == AwakeOnes(s);
        assert !s.pool.initialized ==> Sleepers(s) == {};
      }
    case Recheck(t) => GroupsAfter(s, s', t);
    case Return(c, woken) =>
      if woken.Some? { GroupsAfter(s, s', woken.value); } else { assert Sleepers(s') == Sleepers(s); }
    case SpuriousWake(t) => GroupsAfter(s, s', t);
    case TimeOut(t) => GroupsAfter(s, s', t);
  }

  /** Safety over every run: whatever threads barge in, wake spuriously or time out, no connection is
      lost or leased twice, and no free one is stranded while everyone sleeps. */
  lemma {:induction false} PoolSafety(target: nat, steps: seq<Step>)
    requires Run(target, steps).Some?
    ensures Conserved(Run(target, steps).value) && NoLostWakeUp(Run(target, steps).value)
  {
    if |steps| > 0 {
      var step := steps[|steps| - 1];
      var before := Run(target, steps[..|steps| - 1]).value;
      PoolSafety(target, steps[..|steps| - 1]);
      ConservedStep(before, step);
      NoLostWakeUpStep(before, step);
    }
  }

  // ---- Which connections there are ----

  /** Which attempts to connect succeed when the first thread enters, and none before. */
  function FirstConnects(steps: seq<Step>): Option<nat -> bool> {
    if |steps| == 0 then None
    else
      var before, step := FirstConnects(steps[..|steps| - 1]), steps[|steps| - 1];
      if before.None? && step.Enter? then Some(step.connects) else before
  }

  /** The connections of the pool, free and leased, are the attempts below its target that succeeded. */
  ghost predicate Opens(s: State, target: nat, first: Option<nat -> bool>) {
    && s.pool.target == target && s.pool.initialized == first.Some?
    && forall c: nat :: c in s.pool.free || c in s.leased <==> first.Some? && c < target && first.value(c)
  }

  lemma OpensStep(s: State, step: Step, target: nat, first: Option<nat -> bool>)
    requires Conserved(s) && Opens(s, target, first) && Enabled(s, step)
    ensures Opens(Next(s, step), target, if first.None? && step.Enter? then Some(step.connects) else first)
  {
    hide Opened, Initialized, Conserved;
    match step
    case Enter(_, _, connects) =>
      InitializedOpens(s, connects, target, first);
      LeaseKeeps(s.(pool := Initialized(s.pool, connects)));
    case Recheck(t) => LeaseKeeps(s.(waiters := s.waiters - {t}));
    case _ =>
  }

  lemma InitializedOpens(s: State, connects: nat -> bool, target: nat, first: Option<nat -> bool>)
    requires Conserved(s) && Opens(s, target, first)
    ensures Opens(s.(pool := Initialized(s.pool, connects)), target, if first.None? then Some(connects) else first)
  {
    if first.None? {
      assert forall c :: c in s.pool.free || c in s.leased ==> c in s.pool.all;
    }
  }

  lemma LeaseKeeps(s: State)
    ensures s.pool.free != [] ==>
              && Lease(s).pool == s.pool.(free := s.pool.free[1..])
              && forall c :: c in Lease(s).pool.free || c in Lease(s).leased <==> c in s.pool.free || c in s.leased
  {
    assert forall c :: s.pool.free != [] && c in s.pool.free ==> c == s.pool.free[0] || c in s.pool.free[1..];
  }

  /** Over every run: before a thread enters there is no connection, and from then on free and leased
      together are exactly the attempts below the target that succeeded then. */
  lemma {:induction false} RunOpens(target: nat, steps: seq<Step>)
    requires Run(target, steps).Some?
    ensures Opens(Run(target, steps).value, target, FirstConnects(steps))
  {
    if |steps| > 0 {
      hide Opens, Next, Enabled, Conserved;
      var step := steps[|steps| - 1];
      var before := Run(target, steps[..|steps| - 1]).value;
      RunOpens(target, steps[..|steps| - 1]);
      PoolSafety(target, steps[..|steps| - 1]);
      OpensStep(before, step, target, FirstConnects(steps[..|steps| - 1]));
    }
  }

  /** A thread that enters sleeps exactly when every connection that could be opened is leased; otherwise it
      leases one that was not. */
  lemma EnterSleepsExactly(target: nat, steps: seq<Step>, t: Thread, timed: bool, connects: nat -> bool)
    requires Run(target, steps).Some? && Enabled(Run(target, steps).value, Enter(t, timed, connects))
    ensures var s := Run(target, steps).value;
            var s', first := Next(s, Enter(t, timed, connects)), FirstConnects(steps + [Enter(t, timed, connects)]);
            && first.Some?
            && (t in s'.waiters <==> forall c: nat :: c < target && first.value(c) ==> c in s.leased)
            && (t in s'.waiters ==> s' == s.(pool := s'.pool, waiters := s.waiters[t := Sleeping(timed)]))
            && (t !in s'.waiters ==> exists c: nat :: c < target && first.value(c) && c !in s.leased
                                                     && s'.leased == s.leased + {c})
  {
    hide Run, Conserved, Opened, Initialized;
    var s, step := Run(target, steps).value, Enter(t, timed, connects);
    RunOpens(target, steps);
    PoolSafety(target, steps);
    assert (steps + [step])[..|steps|] == steps;
    InitializedOpens(s, connects, target, FirstConnects(steps));
    var s1 := s.(pool := Initialized(s.pool, connects));
    InitializedConserved(s, connects);
    FreeAreNotLeased(s1);
    if s1.pool.free != [] {
      var c := s1.pool.free[0];
      assert c in s1.pool.free && Lease(s1).leased == s.leased + {c};
    }
  }

  lemma FreeAreNotLeased(s: State)
    requires Conserved(s)
    ensures forall c :: c in s.pool.free ==> c !in s.leased
  {
  }

  // ---- Waiting with and without a limit ----

  /** Whether a thread came with a limit, when it last entered. */
  function CameTimed(steps: seq<Step>, t: Thread): bool {
    if |steps| == 0 then false
    else
      var step := steps[|steps| - 1];
      if step.Enter? && step.t == t then step.timed else CameTimed(steps[..|steps| - 1], t)
  }

  /** Whether its time was over since then. */
  function TimeOver(steps: seq<Step>, t: Thread): bool {
    if |steps| == 0 then false
    else
      var step := steps[|steps| - 1];
      if step == TimeOut(t) then true
      else if step.Enter? && step.t == t then false else TimeOver(steps[..|steps| - 1], t)
  }

  ghost predicate TimesKept(s: State, steps: seq<Step>) {
    forall t :: t in s.waiters ==>
                  && s.waiters[t].timed == CameTimed(steps, t)
                  && (s.waiters[t].Awake? && s.waiters[t].expired <==> TimeOver(steps, t))
                  && (TimeOver(steps, t) ==> CameTimed(steps, t))
  }

  lemma {:induction false} RunTimes(target: nat, steps: seq<Step>)
    requires Run(target, steps).Some?
    ensures TimesKept(Run(target, steps).value, steps)
  {
    if |steps| > 0 {
      hide TimesKept, Next, Enabled;
      var earlier, step := steps[..|steps| - 1], steps[|steps| - 1];
      RunTimes(target, earlier);
      TimesStep(Run(target, earlier).value, earlier, step);
      assert steps == earlier + [step];
    }
  }

  lemma TimesStep(s: State, steps: seq<Step>, step: Step)
    requires Enabled(s, step) && TimesKept(s, steps)
    ensures TimesKept(Next(s, step), steps + [step])
  {
    hide Initialized;
    var s', longer := Next(s, step), steps + [step];
    assert longer[..|steps|] == steps;
    forall t | t in s'.waiters
      ensures s'.waiters[t].timed == CameTimed(longer, t) && (TimeOver(longer, t) ==> CameTimed(longer, t))
      ensures s'.waiters[t].Awake? && s'.waiters[t].expired <==> TimeOver(longer, t)
    {
      assert !(step.Enter? && step.t == t) ==> t in s.waiters;
    }
  }

  /** A waiter leaves without a connection exactly when it looks, finds none and its time is over, which never
      happens to one that came without a limit, however often it is woken; one whose time is over leaves when
      it looks next, with a connection if one is free. */
  lemma LeavingExactly(target: nat, steps: seq<Step>, t: Thread)
    requires Run(target, steps).Some? && t in Run(target, steps).value.waiters
    ensures var s := Run(target, steps).value;
            && (s.waiters[t].Awake? ==>
                  var s' := Next(s, Recheck(t));
                  && (s.pool.free != [] ==> t !in s'.waiters && s'.leased == s.leased + {s.pool.free[0]})
                  && (s.pool.free == [] ==> s'.leased == s.leased && (t in s'.waiters <==> !TimeOver(steps, t))))
            && (TimeOver(steps, t) ==> CameTimed(steps, t))
            && (Enabled(s, TimeOut(t)) <==> CameTimed(steps, t))
            && (Enabled(s, TimeOut(t)) ==>
                  var s' := Next(Next(s, TimeOut(t)), Recheck(t));
                  t !in s'.waiters && (s.pool.free != [] ==> s'.leased == s.leased + {s.pool.free[0]}))
  {
    hide Run, CameTimed, TimeOver;
    RunTimes(target, steps);
  }

  // ---- Everyone awake looks once ----

  /** The state after the threads in `order` have looked at the pool, one after the other. */
  function Drain(s: State, order: seq<Thread>): State
    decreases |order|
  {
    if order == [] || order[0] !in AwakeOnes(s) then s else Drain(Next(s, Recheck(order[0])), order[1..])
  }

  /** When all awake waiters have looked, in whatever order, no connection is left idle beside a
      sleeper: if someone slept at the start, every free connection is leased. */
  lemma {:induction false} DrainLeavesNoneIdle(s: State, order: seq<Thread>)
    requires Conserved(s) && NoLostWakeUp(s)
    requires forall i, j :: 0 <= i < j < |order| ==> order[i] != order[j]
    requires forall t :: t in order <==> t in AwakeOnes(s)
    ensures Conserved(Drain(s, order)) && AwakeOnes(Drain(s, order)) == {}
    ensures Sleepers(s) != {} ==> Drain(s, order).pool.free == []
    ensures Elements(Drain(s, order).pool.free) + Drain(s, order).leased == Elements(s.pool.free) + s.leased
    decreases |order|
  {
    hide Conserved, NoLostWakeUp;
    if order == [] {
      assert AwakeOnes(s) == {};
      NoneIdle(s);
    } else {
      var t := order[0];
      var s' := Next(s, Recheck(t));
      ConservedStep(s, Recheck(t));
      NoLostWakeUpStep(s, Recheck(t));
      GroupsAfter(s, s', t);
      forall x ensures x in order[1..] <==> x in AwakeOnes(s') {
        assert x in order <==> x == t || x in order[1..];
      }
      DrainLeavesNoneIdle(s', order[1..]);
      if s.pool.free != [] {
        assert s.pool.free == [s.pool.free[0]] + s'.pool.free;
      }
    }
  }

  function Served(s: State, order: seq<Thread>): nat {
    if |s.pool.free| <= |order| then |s.pool.free| else |order|
  }

  /** Different threads, all awake. */
  ghost predicate Looking(s: State, order: seq<Thread>) {
    && (forall i, j :: 0 <= i < j < |order| ==> order[i] != order[j])
    && (forall i :: 0 <= i < |order| ==> order[i] in AwakeOnes(s))
  }

  lemma LookingNext(s: State, order: seq<Thread>)
    requires order != [] && Looking(s, order)
    ensures order[0] in AwakeOnes(s) && order[0] !in order[1..] && Looking(Next(s, Recheck(order[0])), order[1..])
  {
    var s', rest := Next(s, Recheck(order[0])), order[1..];
    forall i | 0 <= i < |rest| ensures rest[i] in AwakeOnes(s') && rest[i] != order[0] {
      assert rest[i] == order[i + 1] && order[i + 1] in AwakeOnes(s);
    }
  }

  /** The first of them lease the free connections from the front, one each. */
  lemma {:induction false} DrainLeases(s: State, order: seq<Thread>)
    requires Looking(s, order)
    ensures var d, m := Drain(s, order), Served(s, order);
            d.pool == s.pool.(free := s.pool.free[m..]) && d.leased == s.leased + Elements(s.pool.free[..m])
    decreases |order|
  {
    hide Looking, Next, AwakeOnes;
    var free, m := s.pool.free, Served(s, order);
    if order == [] {
      assert free[0..] == free && Elements(free[..0]) == {};
    } else {
      hide Elements;
      LookingNext(s, order);
      LookOne(s, order[0]);
      DrainLeases(Next(s, Recheck(order[0])), order[1..]);
      if free != [] { OneThenOthers(free, m); }
    }
  }

  lemma LookOne(s: State, t: Thread)
    requires t in AwakeOnes(s)
    ensures var s' := Next(s, Recheck(t));
            if s.pool.free == [] then s'.pool == s.pool && s'.leased == s.leased
            else s'.pool == s.pool.(free := s.pool.free[1..]) && s'.leased == s.leased + {s.pool.free[0]}
  {
  }

  lemma OneThenOthers(free: seq<Conn>, m: nat)
    requires 1 <= m <= |free|
    ensures free[1..][m - 1..] == free[m..] && Elements(free[..m]) == {free[0]} + Elements(free[1..][..m - 1])
  {
    assert free[..m] == [free[0]] + free[1..][..m - 1];
  }

  /** What becomes of one thread: those served leave, and so do those whose time is over; the others sleep
      again.  Threads that did not look stay as they were. */
  ghost predicate Settled(s: State, order: seq<Thread>, d: State, t: Thread) {
    if t in s.waiters && t !in order then t in d.waiters && d.waiters[t] == s.waiters[t]
    else if t in s.waiters && s.waiters[t].Awake? && t !in order[..Served(s, order)] && !s.waiters[t].expired then
      t in d.waiters && d.waiters[t] == Sleeping(s.waiters[t].timed)
    else t !in d.waiters
  }

  lemma {:induction false} DrainSettles(s: State, order: seq<Thread>, t: Thread)
    requires Looking(s, order)
    ensures Settled(s, order, Drain(s, order), t)
    decreases |order|
  {
    hide Looking;
    if order != [] {
      LookingNext(s, order);
      var s', rest := Next(s, Recheck(order[0])), order[1..];
      DrainSettles(s', rest, t);
      assert t in order <==> t == order[0] || t in rest;
      if s.pool.free != [] {
        var m := Served(s, order);
        assert order[..m] == [order[0]] + rest[..m - 1] && Served(s', rest) == m - 1;
      }
      hide Drain;
    }
  }

  /** Who gets what when awake threads look at the pool in this order. */
  lemma DrainExactly(s: State, order: seq<Thread>)
    requires Looking(s, order)
    ensures var d, m := Drain(s, order), Served(s, order);
            && d.pool == s.pool.(free := s.pool.free[m..]) && d.leased == s.leased + Elements(s.pool.free[..m])
            && forall t :: Settled(s, order, d, t)
  {
    hide *;
    DrainLeases(s, order);
    forall t ensures Settled(s, order, Drain(s, order), t) {
      DrainSettles(s, order, t);
    }
  }

  /** A connection that comes back is handed out again only after all that were free before it. */
  lemma ReturnedGoesLast(s: State, conn: Conn, woken: Option<Thread>, order: seq<Thread>)
    requires Conserved(s) && Enabled(s, Return(conn, woken)) && Looking(Next(s, Return(conn, woken)), order)
    ensures var d := Drain(Next(s, Return(conn, woken)), order);
            && (conn in d.leased <==> |order| > |s.pool.free|)
            && (conn in d.pool.free <==> |order| <= |s.pool.free|)
  {
    hide Looking, Settled, AwakeOnes;
    var s' := Next(s, Return(conn, woken));
    DrainExactly(s', order);
    var free', m := s'.pool.free, Served(s', order);
    assert free' == s.pool.free + [conn] && conn !in s.pool.free;
    if m <= |s.pool.free| {
      assert free'[m..] == s.pool.free[m..] + [conn] && free'[..m] == s.pool.free[..m];
    } else {
      assert free'[m..] == [] && free'[..m][|s.pool.free|] == conn;
    }
  }

  lemma NoneIdle(s: State)
    requires NoLostWakeUp(s) && AwakeOnes(s) == {}
    ensures Sleepers(s) != {} ==> s.pool.free == []
  {
  }
}
