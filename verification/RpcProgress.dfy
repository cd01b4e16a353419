/** That calls do succeed: from every state of a run, a call that gets a connection and its answer ends with
    that answer, whatever pieces its frame and its response travel in, and the next one reuses the connection. */
module RpcProgress {
  import opened Bytes
  import opened RpcCalls
  import opened RpcChannel
  import opened RpcFraming
  import opened Wrappers

  // ---- Runs from a state ----

  function RunFrom(c: Codec, s: State, steps: seq<Step>): Option<State>
    decreases |steps|
  {
    if steps == [] then Some(s)
    else if Enabled(c, s, steps[0]) then RunFrom(c, Next(c, s, steps[0]), steps[1..]) else None
  }

  lemma {:induction false} RunFromSplits(c: Codec, s: State, a: seq<Step>, b: seq<Step>)
    requires RunFrom(c, s, a).Some?
    ensures RunFrom(c, s, a + b) == RunFrom(c, RunFrom(c, s, a).value, b)
    decreases |a|
  {
    hide Enabled, Next;
    if a == [] {
      assert a + b == b;
    } else {
      assert (a + b)[0] == a[0] && (a + b)[1..] == a[1..] + b;
      RunFromSplits(c, Next(c, s, a[0]), a[1..], b);
    }
  }

  lemma RunFromOne(c: Codec, s: State, step: Step)
    requires Enabled(c, s, step)
    ensures RunFrom(c, s, [step]) == Some(Next(c, s, step))
  {
    hide Enabled, Next;
    assert [step][1..] == [];
    assert RunFrom(c, Next(c, s, step), []) == Some(Next(c, s, step));
  }

  /** A run goes on from its last state. */
  lemma {:induction false} RunThen(c: Codec, steps: seq<Step>, more: seq<Step>)
    requires Run(c, steps).Some? && RunFrom(c, Run(c, steps).value, more).Some?
    ensures Run(c, steps + more) == RunFrom(c, Run(c, steps).value, more)
    decreases |more|
  {
    hide Enabled, Next;
    if more == [] {
      assert steps + more == steps;
    } else {
      var longer := steps + [more[0]];
      assert longer[..|steps|] == steps && longer[|steps|] == more[0];
      RunThen(c, longer, more[1..]);
      assert steps + more == longer + more[1..];
    }
  }

  // ---- Pieces ----

  function Sum(cuts: seq<nat>): nat {
    if cuts == [] then 0 else cuts[0] + Sum(cuts[1..])
  }

  /** The sizes of the pieces of `n` bytes, none empty. */
  ghost predicate Cut(cuts: seq<nat>, n: nat) {
    Sum(cuts) == n && forall i :: 0 <= i < |cuts| ==> cuts[i] > 0
  }

  lemma CutNext(cuts: seq<nat>, n: nat)
    requires Cut(cuts, n)
    ensures cuts == [] <==> n == 0
    ensures cuts != [] ==> 0 < cuts[0] <= n && Cut(cuts[1..], n - cuts[0])
  {
  }

  function SendSteps(id: CallId, cuts: seq<nat>): seq<Step> {
    if cuts == [] then [] else [SendSome(id, cuts[0])] + SendSteps(id, cuts[1..])
  }

  function ArriveSteps(fd: Fd, cuts: seq<nat>): seq<Step> {
    if cuts == [] then [] else [Arrive(fd, cuts[0])] + ArriveSteps(fd, cuts[1..])
  }

  function RecvSteps(id: CallId, cuts: seq<nat>): seq<Step> {
    if cuts == [] then [] else [RecvSome(id, cuts[0])] + RecvSteps(id, cuts[1..])
  }

  // ---- One call, step by step ----

  /** The state in which call `id` stands like this and uses `fd`, which stands like this. */
  function With(s: State, fd: Fd, conn: Conn, id: CallId, call: Call): State {
    s.(open := s.open[fd := Open(conn, Used(id))], calls := s.calls[id := call])
  }

  lemma StepFirst(c: Codec, s: State, step: Step, s': State, more: seq<Step>)
    requires Enabled(c, s, step) && Next(c, s, step) == s'
    ensures RunFrom(c, s, [step] + more) == RunFrom(c, s', more)
  {
    hide Enabled, Next;
    assert ([step] + more)[1..] == more;
  }

  /** One piece of the frame, not the last. */
  lemma SendOne(c: Codec, s: State, fd: Fd, conn: Conn, id: CallId, r: Request, left: bytes, n: nat)
    requires 0 < n <= |left|
    ensures var now := With(s, fd, conn, id, Sending(fd, r, left));
            && Enabled(c, now, SendSome(id, n))
            && Next(c, now, SendSome(id, n))
               == With(s, fd, Send(conn, left[..n]), id,
                       if n == |left| then Receiving(fd, r, []) else Sending(fd, r, left[n..]))
  {
    var now, conn' := With(s, fd, conn, id, Sending(fd, r, left)), Send(conn, left[..n]);
    assert now.open[fd := Open(conn', Used(id))] == s.open[fd := Open(conn', Used(id))];
  }

  lemma {:induction false} Sends(c: Codec, s: State, fd: Fd, conn: Conn, id: CallId, r: Request, left: bytes,
                                 cuts: seq<nat>)
    requires left != [] && Cut(cuts, |left|)
    ensures RunFrom(c, With(s, fd, conn, id, Sending(fd, r, left)), SendSteps(id, cuts))
            == Some(With(s, fd, Send(conn, left), id, Receiving(fd, r, [])))
    decreases |cuts|
  {
    hide Enabled, Next, With, Sum, Cut;
    CutNext(cuts, |left|);
    var n := cuts[0];
    SendOne(c, s, fd, conn, id, r, left, n);
    CutNext(cuts[1..], |left| - n);
    var s' := Next(c, With(s, fd, conn, id, Sending(fd, r, left)), SendSome(id, n));
    StepFirst(c, With(s, fd, conn, id, Sending(fd, r, left)), SendSome(id, n), s', SendSteps(id, cuts[1..]));
    if n < |left| {
      Sends(c, s, fd, Send(conn, left[..n]), id, r, left[n..], cuts[1..]);
      SendTwice(conn, left, n);
    } else {
      assert left[..n] == left;
    }
  }

  lemma SendTwice(conn: Conn, data: bytes, n: nat)
    requires n <= |data|
    ensures Send(Send(conn, data[..n]), data[n..]) == Send(conn, data)
  {
    assert (conn.sent + data[..n]) + data[n..] == conn.sent + data;
  }

  lemma ArriveOne(c: Codec, s: State, fd: Fd, conn: Conn, id: CallId, call: Call, n: nat)
    requires conn.arrived + n <= |conn.sent|
    ensures var now := With(s, fd, conn, id, call);
            && Enabled(c, now, Arrive(fd, n))
            && Next(c, now, Arrive(fd, n)) == With(s, fd, conn.(arrived := conn.arrived + n), id, call)
  {
    var conn' := conn.(arrived := conn.arrived + n);
    assert With(s, fd, conn, id, call).open[fd := Open(conn', Used(id))] == s.open[fd := Open(conn', Used(id))];
  }

  lemma {:induction false} Arrives(c: Codec, s: State, fd: Fd, conn: Conn, id: CallId, call: Call, cuts: seq<nat>)
    requires conn.arrived + Sum(cuts) <= |conn.sent|
    ensures RunFrom(c, With(s, fd, conn, id, call), ArriveSteps(fd, cuts))
            == Some(With(s, fd, conn.(arrived := conn.arrived + Sum(cuts)), id, call))
    decreases |cuts|
  {
    hide Enabled, Next, With;
    if cuts != [] {
      var n := cuts[0];
      var conn' := conn.(arrived := conn.arrived + n);
      ArriveOne(c, s, fd, conn, id, call, n);
      StepFirst(c, With(s, fd, conn, id, call), Arrive(fd, n), With(s, fd, conn', id, call),
                ArriveSteps(fd, cuts[1..]));
      Arrives(c, s, fd, conn', id, call, cuts[1..]);
    }
  }

  /** The response so far is the first `from` bytes of `m`. */
  function Reading(s: State, fd: Fd, conn: Conn, id: CallId, r: Request, m: bytes, from: nat): State
    requires from <= |m|
  {
    With(s, fd, conn.(read := conn.read + from), id, Receiving(fd, r, m[..from]))
  }

  lemma ReadOne(c: Codec, s: State, fd: Fd, conn: Conn, id: CallId, r: Request, m: bytes, from: nat, n: nat)
    requires conn.read + |m| == |Output(conn.answers)| && Output(conn.answers)[conn.read..] == m
    requires from + n <= |m| && 0 < n <= Wanted(m[..from])
    ensures var now := Reading(s, fd, conn, id, r, m, from);
            && Enabled(c, now, RecvSome(id, n))
            && Next(c, now, RecvSome(id, n)) == Reading(s, fd, conn, id, r, m, from + n)
  {
    hide Wanted, Output;
    var now, out := Reading(s, fd, conn, id, r, m, from), Output(conn.answers);
    assert out[conn.read + from..conn.read + from + n] == m[from..from + n];
    assert m[..from] + m[from..from + n] == m[..from + n];
    var conn' := conn.(read := conn.read + from + n);
    assert now.open[fd := Open(conn', Used(id))] == s.open[fd := Open(conn', Used(id))];
  }

  lemma WantedShrinks(m: bytes, from: nat, n: nat)
    requires from + n <= |m| && n < Wanted(m[..from])
    ensures Wanted(m[..from + n]) == Wanted(m[..from]) - n
  {
    hide Length;
    if from >= 4 {
      assert m[..from + n][..4] == m[..from][..4];
    }
  }

  lemma {:induction false} Reads(c: Codec, s: State, fd: Fd, conn: Conn, id: CallId, r: Request, m: bytes,
                                 from: nat, n: nat, cuts: seq<nat>)
    requires conn.read + |m| == |Output(conn.answers)| && Output(conn.answers)[conn.read..] == m
    requires from + n <= |m| && n <= Wanted(m[..from]) && Cut(cuts, n)
    ensures RunFrom(c, Reading(s, fd, conn, id, r, m, from), RecvSteps(id, cuts))
            == Some(Reading(s, fd, conn, id, r, m, from + n))
    decreases |cuts|
  {
    hide Enabled, Next, Reading, Sum, Cut, Wanted, Output;
    CutNext(cuts, n);
    if cuts != [] {
      var k := cuts[0];
      ReadOne(c, s, fd, conn, id, r, m, from, k);
      StepFirst(c, Reading(s, fd, conn, id, r, m, from), RecvSome(id, k), Reading(s, fd, conn, id, r, m, from + k),
                RecvSteps(id, cuts[1..]));
      CutNext(cuts[1..], n - k);
      if k < n {
        WantedShrinks(m, from, k);
        Reads(c, s, fd, conn, id, r, m, from + k, n - k, cuts[1..]);
      }
    }
  }

  /** What is asked for first is the length, and after it the body. */
  lemma WantedParts(body: bytes)
    requires |body| < MAX_RESPONSE
    ensures |RpcCalls.Message(body)| == 4 + |body|
    ensures Wanted(RpcCalls.Message(body)[..0]) == 4 && Wanted(RpcCalls.Message(body)[..4]) == |body|
    ensures Wanted(RpcCalls.Message(body)) == 0 && Body(RpcCalls.Message(body)) == body
  {
    hide Prefix, Length;
    var m := RpcCalls.Message(body);
    LengthOfPrefix(|body|);
    assert m == Prefix(|body|) + body && m[..4] == Prefix(|body|) == m[..4][..4];
  }

  /** The length field and the body are each read in any pieces. */
  lemma ReadsAll(c: Codec, s: State, fd: Fd, conn: Conn, id: CallId, r: Request, body: bytes,
                 lengthCuts: seq<nat>, bodyCuts: seq<nat>)
    requires |body| < MAX_RESPONSE && Cut(lengthCuts, 4) && Cut(bodyCuts, |body|)
    requires |Output(conn.answers)| == conn.read + 4 + |body|
    requires Output(conn.answers)[conn.read..] == RpcCalls.Message(body)
    ensures RunFrom(c, With(s, fd, conn, id, Receiving(fd, r, [])), RecvSteps(id, lengthCuts) + RecvSteps(id, bodyCuts))
            == Some(With(s, fd, conn.(read := |Output(conn.answers)|), id, Receiving(fd, r, RpcCalls.Message(body))))
  {
    hide Enabled, Next, Cut, Wanted, Output, RpcCalls.Message, RunFrom;
    var m := RpcCalls.Message(body);
    WantedParts(body);
    assert m[..0] == [] && m[..|m|] == m;
    Reads(c, s, fd, conn, id, r, m, 0, 4, lengthCuts);
    Reads(c, s, fd, conn, id, r, m, 4, |body|, bodyCuts);
    RunFromSplits(c, Reading(s, fd, conn, id, r, m, 0), RecvSteps(id, lengthCuts), RecvSteps(id, bodyCuts));
  }

  // ---- The whole call ----

  /** The descriptor a call gets: the one pooled last under its key, or a new one. */
  function Given(s: State, r: Request, connect: Option<Fd>): Fd
    requires Idle(s.pool, Key(r)) != [] || connect.Some?
  {
    var fds := Idle(s.pool, Key(r));
    if fds != [] then fds[|fds| - 1] else connect.value
  }

  ghost predicate CanBegin(c: Codec, s: State, id: CallId, r: Request, connect: Option<Fd>) {
    && id !in s.calls && Fits(c, r)
    && (connect.Some? ==> connect.value !in s.open)
    && (Idle(s.pool, Key(r)) != [] || connect.Some?)
  }

  /** A connection that a call can be started on. */
  ghost predicate Fresh(c: Codec, conn: Conn) {
    && Quiet(c, conn) && conn.arrived <= |conn.sent|
    && (forall a :: a in conn.asked ==> Fits(c, a.request))
    && (|conn.answers| > 0 ==> conn.answers[|conn.answers| - 1].index < |conn.asked|)
  }

  lemma GivenIsFresh(c: Codec, s: State, id: CallId, r: Request, connect: Option<Fd>)
    requires Inv(c, s) && CanBegin(c, s, id, r, connect)
    ensures Fresh(c, ConnOf(s, Given(s, r, connect)))
  {
    hide Key, Frames, Output, Fits, Logged, Serves;
    var fds, fd := Idle(s.pool, Key(r)), Given(s, r, connect);
    if fds != [] {
      assert KeyOk(s, Key(r)) && fd in fds;
      assert OpenOk(c, s, fd);
    } else {
      NewIsQuiet(c);
    }
  }

  /** The steps of one call between its begin and its end: send, let what was sent arrive, answer, receive. */
  function Middle(id: CallId, fd: Fd, index: nat, body: bytes, cuts: Cuts): seq<Step> {
    SendSteps(id, cuts.frame)
    + (ArriveSteps(fd, cuts.arriving)
       + ([Answer(fd, index, body)] + (RecvSteps(id, cuts.length) + RecvSteps(id, cuts.body))))
  }

  function Steps(id: CallId, r: Request, connect: Option<Fd>, fd: Fd, index: nat, body: bytes, cuts: Cuts): seq<Step> {
    [Begin(id, r, connect)] + (Middle(id, fd, index, body, cuts) + [Finish(id, true)])
  }

  /** The pieces in which the frame is sent and arrives, and those in which the response is received. */
  datatype Cuts = Cuts(frame: seq<nat>, arriving: seq<nat>, length: seq<nat>, body: seq<nat>)

  /** The pieces are those of this request, on this connection, and of this response. */
  ghost predicate CutsOf(c: Codec, conn: Conn, r: Request, body: bytes, cuts: Cuts) {
    && Cut(cuts.frame, |Frame(c, r)|)
    && conn.arrived + Sum(cuts.arriving) == |conn.sent| + |Frame(c, r)|
    && Cut(cuts.length, 4) && Cut(cuts.body, |body|)
  }

  /** The connection when its last request was sent and has arrived. */
  function Arrived(c: Codec, conn: Conn, a: Asked): Conn {
    var conn' := Send(Ask(conn, a), Frame(c, a.request));
    conn'.(arrived := |conn'.sent|)
  }

  lemma AllTaken(c: Codec, conn: Conn, a: Asked)
    requires Lawful(c) && Fresh(c, conn) && Fits(c, a.request)
    ensures Taken(c, Arrived(c, conn, a)) == Requests(conn.asked) + [a.request]
  {
    hide Frame, Frames, Fits, Lawful, Drain, Output;
    var conn' := Arrived(c, conn, a);
    var rs := Requests(conn.asked) + [a.request];
    FramesAppend(c, Requests(conn.asked), a.request);
    assert conn'.sent == Frames(c, rs) && conn'.sent[..conn'.arrived] == conn'.sent;
    assert forall x :: x in rs ==> x == a.request || x in Requests(conn.asked);
    DrainFrames(c, rs, []);
    DrainNothing(c);
    assert Frames(c, rs) + [] == Frames(c, rs) && rs + [] == rs;
  }

  lemma AnswerOne(c: Codec, s: State, fd: Fd, conn: Conn, id: CallId, r: Request, call: Call, body: bytes)
    requires Lawful(c) && Fresh(c, conn) && Fits(c, r) && |body| < MAX_RESPONSE
    ensures var conn' := Arrived(c, conn, Asked(id, r));
            var now, index := With(s, fd, conn', id, call), |conn.asked|;
            && Enabled(c, now, Answer(fd, index, body))
            && Next(c, now, Answer(fd, index, body))
               == With(s.(answered := s.answered + {Exchange(id, r, body)}), fd,
                       conn'.(answers := conn.answers + [AnswerTo(index, body)]), id, call)
  {
    hide Taken, Quiet, Frame, Fits, Lawful;
    AllTaken(c, conn, Asked(id, r));
    var conn', index := Arrived(c, conn, Asked(id, r)), |conn.asked|;
    assert Taken(c, conn')[index] == r && conn'.asked[index] == Asked(id, r);
    var conn'' := conn'.(answers := conn.answers + [AnswerTo(index, body)]);
    assert With(s, fd, conn', id, call).open[fd := Open(conn'', Used(id))] == s.open[fd := Open(conn'', Used(id))];
  }

  /** The connection when the call has finished. */
  function Finished(c: Codec, conn: Conn, a: Asked, body: bytes): Conn {
    var answers := conn.answers + [AnswerTo(|conn.asked|, body)];
    Arrived(c, conn, a).(answers := answers, read := |Output(answers)|)
  }

  /** The state when the call has finished: it succeeded, and its connection is idle. */
  function Succeeding(c: Codec, s: State, id: CallId, r: Request, connect: Option<Fd>, body: bytes): State
    requires Idle(s.pool, Key(r)) != [] || connect.Some?
  {
    var fd := Given(s, r, connect);
    State(s.pool[Key(r) := if Idle(s.pool, Key(r)) != [] then Idle(s.pool, Key(r)) else [fd]],
          s.open[fd := Open(Finished(c, ConnOf(s, fd), Asked(id, r), body), RpcCalls.Pooled(Key(r)))],
          s.calls[id := Succeeded(r, body)],
          s.answered + {Exchange(id, r, body)})
  }

  lemma BeginOne(c: Codec, s: State, id: CallId, r: Request, connect: Option<Fd>)
    requires CanBegin(c, s, id, r, connect)
    ensures var fd := Given(s, r, connect);
            && Enabled(c, s, Begin(id, r, connect))
            && Next(c, s, Begin(id, r, connect))
               == With(s.(pool := Popped(s.pool, Key(r))), fd, Ask(ConnOf(s, fd), Asked(id, r)), id,
                       Sending(fd, r, Frame(c, r)))
  {
    hide Key, Frame, Fits;
  }

  lemma FinishOne(c: Codec, s: State, fd: Fd, conn: Conn, id: CallId, r: Request, body: bytes, answered: set<Exchange>,
                  connect: Option<Fd>)
    requires |body| < MAX_RESPONSE && (Idle(s.pool, Key(r)) != [] || connect.Some?) && fd == Given(s, r, connect)
    requires |Idle(s.pool, Key(r))| <= MAX_POOL_PER_KEY
    ensures var now := With(s.(pool := Popped(s.pool, Key(r)), answered := answered), fd, conn, id,
                            Receiving(fd, r, RpcCalls.Message(body)));
            && Enabled(c, now, Finish(id, true))
            && Next(c, now, Finish(id, true))
               == State(s.pool[Key(r) := if Idle(s.pool, Key(r)) != [] then Idle(s.pool, Key(r)) else [fd]],
                        s.open[fd := Open(conn, RpcCalls.Pooled(Key(r)))], s.calls[id := Succeeded(r, body)], answered)
  {
    hide Key, Wanted, Body, RpcCalls.Message;
    WantedParts(body);
    var key := Key(r);
    var fds := Idle(s.pool, key);
    var now := With(s.(pool := Popped(s.pool, key), answered := answered), fd, conn, id,
                    Receiving(fd, r, RpcCalls.Message(body)));
    PushedBack(s.pool, key, fd);
    assert now.open[fd := Open(conn, RpcCalls.Pooled(key))] == s.open[fd := Open(conn, RpcCalls.Pooled(key))];
    assert now.calls[id := Succeeded(r, body)] == s.calls[id := Succeeded(r, body)];
    hide Popped, Pushed, Idle;
    assert |Idle(now.pool, key)| < MAX_POOL_PER_KEY;
  }

  /** Taking a descriptor from a key and putting it back; a new one when there was none. */
  lemma PushedBack(p: Pool, key: bytes, fd: Fd)
    requires |Idle(p, key)| <= MAX_POOL_PER_KEY
    requires Idle(p, key) != [] ==> fd == Idle(p, key)[|Idle(p, key)| - 1]
    ensures |Idle(Popped(p, key), key)| < MAX_POOL_PER_KEY
    ensures Pushed(Popped(p, key), key, fd) == p[key := if Idle(p, key) != [] then Idle(p, key) else [fd]]
  {
    var fds := Idle(p, key);
    assert fds != [] ==> fds[..|fds| - 1] + [fd] == fds;
    assert Idle(Popped(p, key), key) + [fd] == if fds != [] then fds else [fd];
  }

  /** The state when the call has begun. */
  function AfterBegin(c: Codec, s: State, id: CallId, r: Request, connect: Option<Fd>): State
    requires Idle(s.pool, Key(r)) != [] || connect.Some?
  {
    var fd := Given(s, r, connect);
    With(s.(pool := Popped(s.pool, Key(r))), fd, Ask(ConnOf(s, fd), Asked(id, r)), id, Sending(fd, r, Frame(c, r)))
  }

  /** The state when the response has been received. */
  function AfterMiddle(c: Codec, s: State, id: CallId, r: Request, connect: Option<Fd>, body: bytes): State
    requires Idle(s.pool, Key(r)) != [] || connect.Some?
  {
    var fd := Given(s, r, connect);
    With(s.(pool := Popped(s.pool, Key(r)), answered := s.answered + {Exchange(id, r, body)}), fd,
         Finished(c, ConnOf(s, fd), Asked(id, r), body), id, Receiving(fd, r, RpcCalls.Message(body)))
  }

  /** From any state with the invariant: what happens between begin and end. */
  lemma MiddleRuns(c: Codec, s: State, id: CallId, r: Request, connect: Option<Fd>, body: bytes, cuts: Cuts)
    requires Lawful(c) && Inv(c, s) && CanBegin(c, s, id, r, connect) && |body| < MAX_RESPONSE
    requires CutsOf(c, ConnOf(s, Given(s, r, connect)), r, body, cuts)
    ensures var fd := Given(s, r, connect);
            RunFrom(c, AfterBegin(c, s, id, r, connect), Middle(id, fd, |ConnOf(s, fd).asked|, body, cuts))
            == Some(AfterMiddle(c, s, id, r, connect, body))
  {
    hide Enabled, Next, Lawful, Fits, Key, Frame, Output, RpcCalls.Message, Popped, Idle, Inv, With, Fresh, Cut, Quiet;
    var fd := Given(s, r, connect);
    var conn, asked := ConnOf(s, fd), Asked(id, r);
    var base := s.(pool := Popped(s.pool, Key(r)));
    var base' := base.(answered := s.answered + {Exchange(id, r, body)});
    var done := Finished(c, conn, asked, body);
    GivenIsFresh(c, s, id, r, connect);
    FrameNotEmpty(c, r);
    Sends(c, base, fd, Ask(conn, asked), id, r, Frame(c, r), cuts.frame);
    Arrives(c, base, fd, Send(Ask(conn, asked), Frame(c, r)), id, Receiving(fd, r, []), cuts.arriving);
    AnswerOne(c, base, fd, conn, id, r, Receiving(fd, r, []), body);
    Unread(c, conn, asked, body);
    ReadsAll(c, base', fd, done.(read := conn.read), id, r, body, cuts.length, cuts.body);
    var s1 := AfterBegin(c, s, id, r, connect);
    var s2 := With(base, fd, Send(Ask(conn, asked), Frame(c, r)), id, Receiving(fd, r, []));
    var s3 := With(base, fd, Arrived(c, conn, asked), id, Receiving(fd, r, []));
    var s4 := With(base', fd, done.(read := conn.read), id, Receiving(fd, r, []));
    hide RunFrom, Finished, Arrived;
    var receives := RecvSteps(id, cuts.length) + RecvSteps(id, cuts.body);
    StepFirst(c, s3, Answer(fd, |conn.asked|, body), s4, receives);
    var later := [Answer(fd, |conn.asked|, body)] + receives;
    RunFromSplits(c, s2, ArriveSteps(fd, cuts.arriving), later);
    RunFromSplits(c, s1, SendSteps(id, cuts.frame), ArriveSteps(fd, cuts.arriving) + later);
  }

  /** All of it together. */
  lemma CallRuns(c: Codec, s: State, id: CallId, r: Request, connect: Option<Fd>, body: bytes, cuts: Cuts)
    requires Lawful(c) && Inv(c, s) && CanBegin(c, s, id, r, connect) && |body| < MAX_RESPONSE
    requires CutsOf(c, ConnOf(s, Given(s, r, connect)), r, body, cuts)
    ensures var fd := Given(s, r, connect);
            RunFrom(c, s, Steps(id, r, connect, fd, |ConnOf(s, fd).asked|, body, cuts))
            == Some(Succeeding(c, s, id, r, connect, body))
  {
    hide Enabled, Next, Lawful, Fits, Key, Frame, Popped, Idle, Inv, With, Finished, CutsOf, Middle, RunFrom;
    var fd := Given(s, r, connect);
    var conn := ConnOf(s, fd);
    var middle := Middle(id, fd, |conn.asked|, body, cuts);
    BeginOne(c, s, id, r, connect);
    MiddleRuns(c, s, id, r, connect, body, cuts);
    PoolFits(c, s, Key(r));
    var answered := s.answered + {Exchange(id, r, body)};
    FinishOne(c, s, fd, Finished(c, conn, Asked(id, r), body), id, r, body, answered, connect);
    RunFromOne(c, AfterMiddle(c, s, id, r, connect, body), Finish(id, true));
    RunFromSplits(c, AfterBegin(c, s, id, r, connect), middle, [Finish(id, true)]);
    StepFirst(c, s, Begin(id, r, connect), AfterBegin(c, s, id, r, connect), middle + [Finish(id, true)]);
  }

  lemma PoolFits(c: Codec, s: State, key: bytes)
    requires Inv(c, s)
    ensures |Idle(s.pool, key)| <= MAX_POOL_PER_KEY
  {
    hide OpenOk, CallOk;
    assert key in s.pool ==> KeyOk(s, key);
  }

  /** Of a fresh connection's output, the new answer is what has not been read. */
  lemma Unread(c: Codec, conn: Conn, a: Asked, body: bytes)
    requires Fresh(c, conn) && |body| < MAX_RESPONSE
    ensures var out := Output(conn.answers + [AnswerTo(|conn.asked|, body)]);
            |out| == conn.read + 4 + |body| && out[conn.read..] == RpcCalls.Message(body)
  {
    hide Output, RpcCalls.Message;
    OutputNext(conn.answers, AnswerTo(|conn.asked|, body));
    WantedParts(body);
  }

  // ---- The promises ----

  /** From every state of a run, a call whose key has an idle connection, or for which a new one can be made,
      can be begun, sent, answered and received in any pieces, and then it has succeeded with that answer.
      Its connection is the last idle one of its key again, and nothing else has changed. */
  lemma CallSucceeds(c: Codec, steps: seq<Step>, id: CallId, r: Request, connect: Option<Fd>, body: bytes, cuts: Cuts)
    requires Lawful(c) && Run(c, steps).Some? && |body| < MAX_RESPONSE
    requires CanBegin(c, Run(c, steps).value, id, r, connect)
    requires CutsOf(c, ConnOf(Run(c, steps).value, Given(Run(c, steps).value, r, connect)), r, body, cuts)
    ensures var s := Run(c, steps).value;
            var fd := Given(s, r, connect);
            var end := Run(c, steps + Steps(id, r, connect, fd, |ConnOf(s, fd).asked|, body, cuts));
            && end.Some? && end.value.calls == s.calls[id := Succeeded(r, body)]
            && Idle(end.value.pool, Key(r)) == (if Idle(s.pool, Key(r)) != [] then Idle(s.pool, Key(r)) else [fd])
            && Idle(end.value.pool, Key(r))[|Idle(end.value.pool, Key(r))| - 1] == fd
            && (forall key :: key != Key(r) ==> Idle(end.value.pool, key) == Idle(s.pool, key))
            && end.value.open.Keys == s.open.Keys + {fd}
            && end.value.open[fd].conn.asked == ConnOf(s, fd).asked + [Asked(id, r)]
            && (forall f :: f in s.open && f != fd ==> end.value.open[f] == s.open[f])
  {
    hide Run, RunFrom, Inv, Lawful, Fits, CutsOf, Key, Steps;
    RunKeeps(c, steps);
    CallRuns(c, Run(c, steps).value, id, r, connect, body, cuts);
    var s := Run(c, steps).value;
    var fd := Given(s, r, connect);
    RunThen(c, steps, Steps(id, r, connect, fd, |ConnOf(s, fd).asked|, body, cuts));
  }

  /** A later call under the same key is sent on the connection of the one before. */
  lemma NextCallReuses(c: Codec, steps: seq<Step>, id: CallId, r: Request, connect: Option<Fd>, body: bytes, cuts: Cuts,
                       id': CallId, r': Request, connect': Option<Fd>)
    requires Lawful(c) && Run(c, steps).Some? && |body| < MAX_RESPONSE
    requires CanBegin(c, Run(c, steps).value, id, r, connect)
    requires CutsOf(c, ConnOf(Run(c, steps).value, Given(Run(c, steps).value, r, connect)), r, body, cuts)
    requires id' != id && id' !in Run(c, steps).value.calls && Key(r') == Key(r) && Fits(c, r')
    requires connect'.Some? ==>
               connect'.value !in Run(c, steps).value.open
               && connect'.value != Given(Run(c, steps).value, r, connect)
    ensures var s := Run(c, steps).value;
            var fd := Given(s, r, connect);
            var mine := Steps(id, r, connect, fd, |ConnOf(s, fd).asked|, body, cuts);
            var end := Run(c, (steps + mine) + [Begin(id', r', connect')]);
            && end.Some? && end.value.calls == s.calls[id := Succeeded(r, body)][id' := Sending(fd, r', Frame(c, r'))]
            && fd in end.value.open
            && end.value.open[fd].conn.asked == ConnOf(s, fd).asked + [Asked(id, r), Asked(id', r')]
  {
    hide Run, RunFrom, Inv, Lawful, CutsOf, Key, Steps, Fits, Frame, Next, Enabled, Idle;
    CallSucceeds(c, steps, id, r, connect, body, cuts);
    var s := Run(c, steps).value;
    var fd := Given(s, r, connect);
    var longer := steps + Steps(id, r, connect, fd, |ConnOf(s, fd).asked|, body, cuts);
    var now := Run(c, longer).value;
    assert Idle(now.pool, Key(r')) != [] && Given(now, r', connect') == fd;
    BeginOne(c, now, id', r', connect');
    RunFromOne(c, now, Begin(id', r', connect'));
    RunThen(c, longer, [Begin(id', r', connect')]);
    assert ConnOf(now, fd) == now.open[fd].conn;
    var asked := ConnOf(s, fd).asked;
    assert (asked + [Asked(id, r)]) + [Asked(id', r')] == asked + [Asked(id, r), Asked(id', r')];
  }

  /** A failing `send` or `recv`, or a response that does not parse. */
  predicate Fails(step: Step, id: CallId) {
    step == SendFails(id) || step == RecvFails(id) || step == Finish(id, false)
  }

  /** From every state of a run, a call that fails closes its connection, which is idle under no key, and
      changes nothing else. */
  lemma FailureCloses(c: Codec, steps: seq<Step>, id: CallId, step: Step)
    requires Lawful(c) && Run(c, steps).Some? && Fails(step, id) && Enabled(c, Run(c, steps).value, step)
    ensures var s := Run(c, steps).value;
            var s', fd := Next(c, s, step), s.calls[id].fd;
            && fd in s.open && s'.calls == s.calls[id := Call.Failed] && s'.open == s.open - {fd}
            && s'.pool == s.pool && s'.answered == s.answered && forall key :: fd !in Idle(s'.pool, key)
  {
    hide Run, Lawful, OpenOk, Wanted;
    RunKeeps(c, steps);
    var s := Run(c, steps).value;
    var fd := s.calls[id].fd;
    assert CallOk(s, id);
    forall key ensures fd !in Idle(s.pool, key) {
      assert key in s.pool ==> KeyOk(s, key);
    }
  }

  /** Without an idle connection and without a new one a call fails at once. */
  lemma NoConnectionFails(c: Codec, s: State, id: CallId, r: Request)
    requires Enabled(c, s, Begin(id, r, None)) && Idle(s.pool, Key(r)) == []
    ensures var s' := Next(c, s, Begin(id, r, None));
            s'.calls == s.calls[id := Call.Failed] && s'.open == s.open && s'.answered == s.answered
            && forall key :: Idle(s'.pool, key) == Idle(s.pool, key)
  {
    hide Key, Fits;
  }

  /** Methods whose services and names hold no slash have pools of their own. */
  lemma KeyPerMethod(r: Request, r': Request)
    requires 47 !in r.service && 47 !in r'.service
    ensures Key(r) == Key(r') <==> r.service == r'.service && r.methodName == r'.methodName
  {
    if Key(r) == Key(r') {
      KeyParts(r);
      KeyParts(r');
      var n := |r.service| + 1;
      assert n == |r'.service| + 1;
      assert r.service == Key(r)[1..n] && r.methodName == Key(r)[n + 1..];
    }
  }

  /** The key's second slash is the first behind its beginning. */
  lemma KeyParts(r: Request)
    ensures var key, n := Key(r), |r.service| + 1;
            && |key| == n + 1 + |r.methodName| && key[n] == 47
            && key[1..n] == r.service && key[n + 1..] == r.methodName
            && (47 !in r.service ==> forall i :: 0 < i < n ==> key[i] != 47)
  {
  }

  // ---- Among other calls ----

  /** A step of this call or on its connection. */
  predicate Concerns(step: Step, id: CallId, fd: Fd) {
    match step
    case Arrive(f, _) => f == fd
    case Answer(f, _, _) => f == fd
    case Begin(i, _, _) => i == id
    case SendSome(i, _) => i == id
    case SendFails(i) => i == id
    case RecvSome(i, _) => i == id
    case RecvFails(i) => i == id
    case Finish(i, _) => i == id
  }

  predicate InMiddle(step: Step, id: CallId, fd: Fd) {
    Concerns(step, id, fd) && (step.SendSome? || step.Arrive? || step.Answer? || step.RecvSome?)
  }

  /** The steps that concern the call, in their order. */
  function Own(steps: seq<Step>, id: CallId, fd: Fd): seq<Step> {
    if steps == [] then []
    else if Concerns(steps[0], id, fd) then [steps[0]] + Own(steps[1..], id, fd) else Own(steps[1..], id, fd)
  }

  ghost predicate Busy(s: State, id: CallId, fd: Fd) {
    fd in s.open && Uses(s, id, fd)
  }

  /** The call and its connection stand alike in both states. */
  ghost predicate Alike(s: State, t: State, id: CallId, fd: Fd) {
    Busy(s, id, fd) && Busy(t, id, fd) && s.calls[id] == t.calls[id] && s.open[fd].conn == t.open[fd].conn
  }

  /** A step of the call depends on nothing else. */
  lemma OwnStep(c: Codec, s: State, t: State, id: CallId, fd: Fd, step: Step)
    requires Alike(s, t, id, fd) && InMiddle(step, id, fd) && Enabled(c, s, step)
    ensures Enabled(c, t, step) && Alike(Next(c, s, step), Next(c, t, step), id, fd)
  {
    hide Taken, Output, Wanted;
  }

  /** A step of another call touches neither the call nor its connection. */
  lemma OtherStep(c: Codec, s: State, id: CallId, fd: Fd, step: Step)
    requires Inv(c, s) && Busy(s, id, fd) && !Concerns(step, id, fd) && Enabled(c, s, step)
    ensures Alike(s, Next(c, s, step), id, fd)
  {
    hide OpenOk, Taken, Output, Wanted, Frame, Fits, Key, Body;
    assert CallOk(s, id);
    match step
    case Begin(_, request, _) => assert Key(request) in s.pool ==> KeyOk(s, Key(request));
    case SendSome(i, _) => assert CallOk(s, i);
    case SendFails(i) => assert CallOk(s, i);
    case RecvSome(i, _) => assert CallOk(s, i);
    case RecvFails(i) => assert CallOk(s, i);
    case Finish(i, _) => assert CallOk(s, i);
    case _ =>
  }

  lemma AlikeTwice(s: State, t: State, u: State, id: CallId, fd: Fd)
    requires Alike(s, t, id, fd) && Alike(t, u, id, fd)
    ensures Alike(s, u, id, fd)
  {
  }

  /** The call's own steps lead to the same, whatever other steps come between them. */
  lemma {:induction false} Interleaves(c: Codec, s: State, t: State, id: CallId, fd: Fd, mixed: seq<Step>)
    requires Lawful(c) && Inv(c, t) && Alike(s, t, id, fd)
    requires forall i :: 0 <= i < |Own(mixed, id, fd)| ==> InMiddle(Own(mixed, id, fd)[i], id, fd)
    requires RunFrom(c, s, Own(mixed, id, fd)).Some? && RunFrom(c, t, mixed).Some?
    ensures Alike(RunFrom(c, s, Own(mixed, id, fd)).value, RunFrom(c, t, mixed).value, id, fd)
    ensures Inv(c, RunFrom(c, t, mixed).value)
    decreases |mixed|
  {
    hide Lawful, Inv, Enabled, Next, Alike, Concerns, InMiddle;
    if mixed != [] {
      var step, own := mixed[0], Own(mixed, id, fd);
      StepKeeps(c, t, step);
      if Concerns(step, id, fd) {
        assert own[0] == step && own[1..] == Own(mixed[1..], id, fd);
        OwnStep(c, s, t, id, fd, step);
        Interleaves(c, Next(c, s, step), Next(c, t, step), id, fd, mixed[1..]);
      } else {
        AlikeBusy(s, t, id, fd);
        OtherStep(c, t, id, fd, step);
        AlikeTwice(s, t, Next(c, t, step), id, fd);
        Interleaves(c, s, Next(c, t, step), id, fd, mixed[1..]);
      }
    }
  }

  lemma AlikeBusy(s: State, t: State, id: CallId, fd: Fd)
    ensures Alike(s, t, id, fd) ==> Busy(s, id, fd) && Busy(t, id, fd)
    ensures Busy(s, id, fd) ==> Alike(s, s, id, fd)
  {
  }

  lemma {:induction false} MiddleIsMiddle(id: CallId, fd: Fd, index: nat, body: bytes, cuts: Cuts)
    ensures forall i :: 0 <= i < |Middle(id, fd, index, body, cuts)| ==>
                          InMiddle(Middle(id, fd, index, body, cuts)[i], id, fd)
  {
    PiecesInMiddle(id, fd, cuts.frame);
    PiecesInMiddle(id, fd, cuts.arriving);
    PiecesInMiddle(id, fd, cuts.length);
    PiecesInMiddle(id, fd, cuts.body);
  }

  lemma {:induction false} PiecesInMiddle(id: CallId, fd: Fd, cuts: seq<nat>)
    ensures forall i :: 0 <= i < |SendSteps(id, cuts)| ==> InMiddle(SendSteps(id, cuts)[i], id, fd)
    ensures forall i :: 0 <= i < |ArriveSteps(fd, cuts)| ==> InMiddle(ArriveSteps(fd, cuts)[i], id, fd)
    ensures forall i :: 0 <= i < |RecvSteps(id, cuts)| ==> InMiddle(RecvSteps(id, cuts)[i], id, fd)
    decreases |cuts|
  {
    if cuts != [] {
      PiecesInMiddle(id, fd, cuts[1..]);
    }
  }

  /** A call succeeds with its answer however the steps of other calls come between its own: once its own
      steps are done it can finish, and its connection is then pooled behind those that are idle, or closed
      when 64 are. */
  lemma SucceedsAmongOthers(c: Codec, steps: seq<Step>, id: CallId, r: Request, connect: Option<Fd>, body: bytes,
                            cuts: Cuts, mixed: seq<Step>)
    requires Lawful(c) && Run(c, steps).Some? && |body| < MAX_RESPONSE
    requires CanBegin(c, Run(c, steps).value, id, r, connect)
    requires var s := Run(c, steps).value;
             var fd := Given(s, r, connect);
             && CutsOf(c, ConnOf(s, fd), r, body, cuts)
             && Own(mixed, id, fd) == Middle(id, fd, |ConnOf(s, fd).asked|, body, cuts)
    requires Run(c, (steps + [Begin(id, r, connect)]) + mixed).Some?
    ensures var now := Run(c, (steps + [Begin(id, r, connect)]) + mixed).value;
            var fd, idle := Given(Run(c, steps).value, r, connect), Idle(now.pool, Key(r));
            && Enabled(c, now, Finish(id, true))
            && var end := Next(c, now, Finish(id, true));
            && end.calls == now.calls[id := Succeeded(r, body)]
            && (|idle| < 64 ==> Idle(end.pool, Key(r)) == idle + [fd] && fd in end.open)
            && (|idle| >= 64 ==> Idle(end.pool, Key(r)) == idle && fd !in end.open)
  {
    hide Run, RunFrom, Lawful, Fits, CutsOf, Inv, Key, Frame, Enabled, Next, Middle, Own, InMiddle, Alike;
    var s := Run(c, steps).value;
    var fd := Given(s, r, connect);
    var begun := steps + [Begin(id, r, connect)];
    RunKeeps(c, steps);
    BeginOne(c, s, id, r, connect);
    RunFromOne(c, s, Begin(id, r, connect));
    RunThen(c, steps, [Begin(id, r, connect)]);
    var t := AfterBegin(c, s, id, r, connect);
    StepKeeps(c, s, Begin(id, r, connect));
    MiddleRuns(c, s, id, r, connect, body, cuts);
    MiddleIsMiddle(id, fd, |ConnOf(s, fd).asked|, body, cuts);
    AlikeBusy(t, t, id, fd);
    RunGoesOn(c, begun, mixed);
    Interleaves(c, t, t, id, fd, mixed);
    FinishAlike(c, AfterMiddle(c, s, id, r, connect, body), Run(c, begun + mixed).value, id, fd, r, body);
  }

  /** What was run as a whole was run from where its first part ended. */
  lemma {:induction false} RunGoesOn(c: Codec, steps: seq<Step>, more: seq<Step>)
    requires Run(c, steps + more).Some?
    ensures Run(c, steps).Some? && RunFrom(c, Run(c, steps).value, more) == Run(c, steps + more)
    decreases |more|
  {
    hide Enabled, Next;
    if more == [] {
      assert steps + more == steps;
    } else {
      var longer := steps + [more[0]];
      assert longer[..|steps|] == steps && longer[|steps|] == more[0];
      assert steps + more == longer + more[1..];
      RunGoesOn(c, longer, more[1..]);
    }
  }

  lemma FinishAlike(c: Codec, s: State, t: State, id: CallId, fd: Fd, r: Request, body: bytes)
    requires Alike(s, t, id, fd) && s.calls[id] == Receiving(fd, r, RpcCalls.Message(body)) && |body| < MAX_RESPONSE
    ensures Enabled(c, t, Finish(id, true))
    ensures var idle, end := Idle(t.pool, Key(r)), Next(c, t, Finish(id, true));
            && end.calls == t.calls[id := Succeeded(r, body)]
            && (|idle| < 64 ==> Idle(end.pool, Key(r)) == idle + [fd] && fd in end.open)
            && (|idle| >= 64 ==> Idle(end.pool, Key(r)) == idle && fd !in end.open)
  {
    hide Key, Wanted, Body, RpcCalls.Message;
    WantedParts(body);
  }
}
