/** Many calls at once over shared connections, as a step system.  A step is one section under the pool
    lock, one `send` or `recv`, a piece of the stream reaching the provider, or one answer of it. */
module RpcCalls {
  import opened Bytes
  import opened Chunks
  import opened RpcChannel
  import opened RpcFraming
  import opened Wrappers

  type CallId = nat

  /** A request, with the call that sends it. */
  datatype Asked = Asked(id: CallId, request: Request)

  /** The provider's answer to the request at `index` of the connection. */
  datatype AnswerTo = AnswerTo(index: nat, body: bytes)

  /** One connection: the requests started on it, the bytes sent, how many of them the provider has, its
      answers, and how many bytes of these have been read. */
  datatype Conn = Conn(asked: seq<Asked>, sent: bytes, arrived: nat, answers: seq<AnswerTo>, read: nat)

  datatype Owner = Pooled(key: bytes) | Used(id: CallId)

  datatype Open = Open(conn: Conn, owner: Owner)

  datatype Call = Sending(fd: Fd, request: Request, left: bytes) | Receiving(fd: Fd, request: Request, received: bytes)
                | Succeeded(request: Request, body: bytes) | Failed

  /** The provider took this request, which that call had sent, and answered it with the body. */
  datatype Exchange = Exchange(id: CallId, request: Request, body: bytes)

  datatype State = State(pool: Pool, open: map<Fd, Open>, calls: map<CallId, Call>, answered: set<Exchange>)

  datatype Step =
    | Begin(id: CallId, request: Request, connect: Option<Fd>)
    | SendSome(id: CallId, n: nat)
    | SendFails(id: CallId)
    | Arrive(fd: Fd, n: nat)
    | Answer(fd: Fd, index: nat, body: bytes)
    | RecvSome(id: CallId, n: nat)
    | RecvFails(id: CallId)
    | Finish(id: CallId, parses: bool)

  /** The pool's key is the path of the method. */
  function Key(r: Request): bytes {
    [47] + r.service + [47] + r.methodName
  }

  function Requests(asked: seq<Asked>): seq<Request> {
    seq(|asked|, i requires 0 <= i < |asked| => asked[i].request)
  }

  /** The bytes of the answers. */
  function Output(answers: seq<AnswerTo>): bytes {
    if |answers| == 0 then [] else Output(answers[..|answers| - 1]) + Message(answers[|answers| - 1].body)
  }

  function Message(body: bytes): bytes {
    Response(RpcFraming.Reply(body))
  }

  /** The requests the provider has taken off the stream. */
  function Taken(c: Codec, conn: Conn): seq<Request>
    requires conn.arrived <= |conn.sent|
  {
    Drain(c, conn.sent[..conn.arrived]).requests
  }

  /** How many bytes `recvResponse` asks for: the length first, then the body. */
  function Wanted(received: bytes): nat {
    if |received| < 4 then 4 - |received|
    else
      var total := 4 + Length(received[..4]);
      if |received| < total then total - |received| else 0
  }

  function Body(received: bytes): bytes {
    if |received| < 4 then [] else received[4..]
  }

  function ConnOf(s: State, fd: Fd): Conn {
    if fd in s.open then s.open[fd].conn else Conn([], [], 0, [], 0)
  }

  predicate Enabled(c: Codec, s: State, step: Step) {
    match step
    case Begin(id, request, connect) =>
      // The system opens no descriptor that is already open; the request fits its 32-bit sizes.
      id !in s.calls && Fits(c, request) && (connect.Some? ==> connect.value !in s.open)
    case SendSome(id, n) => id in s.calls && s.calls[id].Sending? && 0 < n <= |s.calls[id].left|
    case SendFails(id) => id in s.calls && s.calls[id].Sending?
    case Arrive(fd, n) => fd in s.open && s.open[fd].conn.arrived + n <= |s.open[fd].conn.sent|
    case Answer(fd, index, body) =>
      // Each request is answered at most once, in order.
      && fd in s.open && |body| < MAX_RESPONSE
      && var conn := s.open[fd].conn;
      && conn.arrived <= |conn.sent| && index < |Taken(c, conn)|
      && (|conn.answers| > 0 ==> conn.answers[|conn.answers| - 1].index < index)
    case RecvSome(id, n) =>
      && id in s.calls && s.calls[id].Receiving? && 0 < n <= Wanted(s.calls[id].received)
      && var conn := ConnOf(s, s.calls[id].fd);
      && conn.read + n <= |Output(conn.answers)|
    case RecvFails(id) => id in s.calls && s.calls[id].Receiving?
    case Finish(id, _) => id in s.calls && s.calls[id].Receiving? && Wanted(s.calls[id].received) == 0
  }

  // ---- What a step does to its connection ----

  function Ask(conn: Conn, asked: Asked): Conn {
    conn.(asked := conn.asked + [asked])
  }

  function Send(conn: Conn, data: bytes): Conn {
    conn.(sent := conn.sent + data)
  }

  function Next(c: Codec, s: State, step: Step): State
    requires Enabled(c, s, step)
  {
    match step
    case Begin(id, request, connect) =>
      var key := Key(request);
      var fds := Idle(s.pool, key);
      var s' := s.(pool := Popped(s.pool, key));
      var fd := if fds != [] then Some(fds[|fds| - 1]) else connect;
      if fd.None? then s'.(calls := s.calls[id := Call.Failed])
      else
        s'.(open := s.open[fd.value := Open(Ask(ConnOf(s, fd.value), Asked(id, request)), Used(id))],
            calls := s.calls[id := Sending(fd.value, request, Frame(c, request))])
    case SendSome(id, n) =>
      var call := s.calls[id];
      var conn := Send(ConnOf(s, call.fd), call.left[..n]);
      var left := call.left[n..];
      s.(open := s.open[call.fd := Open(conn, Used(id))],
         calls := s.calls[id := if left == [] then Receiving(call.fd, call.request, [])
                                else Sending(call.fd, call.request, left)])
    case SendFails(id) => Closed(s, id)
    case Arrive(fd, n) =>
      var o := s.open[fd];
      s.(open := s.open[fd := o.(conn := o.conn.(arrived := o.conn.arrived + n))])
    case Answer(fd, index, body) =>
      var o := s.open[fd];
      s.(open := s.open[fd := o.(conn := o.conn.(answers := o.conn.answers + [AnswerTo(index, body)]))],
         answered := if index >= |o.conn.asked| then s.answered
                     else s.answered + {Exchange(o.conn.asked[index].id, Taken(c, o.conn)[index], body)})
    case RecvSome(id, n) =>
      var call := s.calls[id];
      var conn := ConnOf(s, call.fd);
      var data := Output(conn.answers)[conn.read..conn.read + n];
      s.(open := s.open[call.fd := Open(conn.(read := conn.read + n), Used(id))],
         calls := s.calls[id := call.(received := call.received + data)])
    case RecvFails(id) => Closed(s, id)
    case Finish(id, parses) =>
      if !parses then Closed(s, id)
      else
        var call, key := s.calls[id], Key(s.calls[id].request);
        var roomy := |Idle(s.pool, key)| < MAX_POOL_PER_KEY;
        s.(pool := Pushed(s.pool, key, call.fd),
           open := if roomy then s.open[call.fd := Open(ConnOf(s, call.fd), Pooled(key))] else s.open - {call.fd},
           calls := s.calls[id := Succeeded(call.request, Body(call.received))])
  }

  /** The call fails and closes its connection. */
  function Closed(s: State, id: CallId): State
    requires id in s.calls && (s.calls[id].Sending? || s.calls[id].Receiving?)
  {
    s.(open := s.open - {s.calls[id].fd}, calls := s.calls[id := Call.Failed])
  }

  const INITIAL := State(map[], map[], map[], {})

  /** The state after a run, unless one of its steps cannot happen where it stands. */
  function Run(c: Codec, steps: seq<Step>): Option<State> {
    if |steps| == 0 then Some(INITIAL)
    else
      var before := Run(c, steps[..|steps| - 1]);
      var step := steps[|steps| - 1];
      if before.Some? && Enabled(c, before.value, step) then Some(Next(c, before.value, step)) else None
  }

  // ---- What holds of one connection ----

  /** What was sent is the start of the requests' frames; the answers are to the first requests, in
      order; no more is read than was answered. */
  ghost predicate Flows(c: Codec, conn: Conn) {
    && conn.arrived <= |conn.sent|
    && conn.sent <= Frames(c, Requests(conn.asked))
    && (forall a :: a in conn.asked ==> Fits(c, a.request))
    && |conn.answers| <= |conn.asked|
    && (forall j :: 0 <= j < |conn.answers| ==> conn.answers[j].index == j && |conn.answers[j].body| < MAX_RESPONSE)
    && conn.read <= |Output(conn.answers)|
  }

  /** No request is outstanding and no byte is unread. */
  ghost predicate Quiet(c: Codec, conn: Conn) {
    && conn.sent == Frames(c, Requests(conn.asked))
    && |conn.answers| == |conn.asked|
    && conn.read == |Output(conn.answers)|
  }

  /** The last request is the call's, `left` of its frame is still to be sent, `received` is what has been
      read of the answers after those to the earlier requests. */
  ghost predicate Serves(c: Codec, conn: Conn, id: CallId, request: Request, left: bytes, received: bytes) {
    && |conn.asked| > 0 && conn.asked[|conn.asked| - 1] == Asked(id, request)
    && conn.sent + left == Frames(c, Requests(conn.asked))
    && |conn.answers| >= |conn.asked| - 1
    && Output(conn.answers[..|conn.asked| - 1]) + received <= Output(conn.answers)
    && conn.read == |Output(conn.answers[..|conn.asked| - 1])| + |received|
  }

  ghost predicate Logged(conn: Conn, answered: set<Exchange>) {
    |conn.answers| <= |conn.asked|
    && forall j :: 0 <= j < |conn.answers| ==>
         Exchange(conn.asked[j].id, conn.asked[j].request, conn.answers[j].body) in answered
  }

  // ---- The invariant ----

  ghost predicate OpenOk(c: Codec, s: State, fd: Fd)
    requires fd in s.open
  {
    var o := s.open[fd];
    && Flows(c, o.conn) && Logged(o.conn, s.answered)
    && match o.owner
       case Pooled(key) => key in s.pool && fd in s.pool[key] && Quiet(c, o.conn)
       case Used(id) =>
         && id in s.calls
         && match s.calls[id]
            case Sending(fd', request, left) => fd' == fd && left != [] && Serves(c, o.conn, id, request, left, [])
            case Receiving(fd', request, received) => fd' == fd && Serves(c, o.conn, id, request, [], received)
            case _ => false
  }

  ghost predicate CallOk(s: State, id: CallId)
    requires id in s.calls
  {
    match s.calls[id]
    case Sending(fd, _, _) => fd in s.open && s.open[fd].owner == Used(id)
    case Receiving(fd, _, _) => fd in s.open && s.open[fd].owner == Used(id)
    case Succeeded(request, body) => Exchange(id, request, body) in s.answered
    case Failed => true
  }

  ghost predicate KeyOk(s: State, key: bytes)
    requires key in s.pool
  {
    && |s.pool[key]| <= MAX_POOL_PER_KEY && NoRepeats(s.pool[key])
    && forall fd :: fd in s.pool[key] ==> fd in s.open && s.open[fd].owner == Pooled(key)
  }

  ghost predicate Inv(c: Codec, s: State) {
    && (forall fd :: fd in s.open ==> OpenOk(c, s, fd))
    && (forall id :: id in s.calls ==> CallOk(s, id))
    && (forall key :: key in s.pool ==> KeyOk(s, key))
  }

  /** What owns a descriptor before a step on it: the step's call or the step's key. */
  ghost predicate OwnedBy(s: State, fd: Fd, id: CallId, key: bytes) {
    && (fd in s.open ==> s.open[fd].owner in {Used(id), Pooled(key)})
    && (id in s.calls && (s.calls[id].Sending? || s.calls[id].Receiving?) ==> s.calls[id].fd == fd)
  }

  ghost predicate SameBut(s: State, s': State, fd: Fd, id: CallId, key: bytes) {
    && (forall f :: f != fd ==> (f in s'.open <==> f in s.open) && (f in s.open ==> s'.open[f] == s.open[f]))
    && (forall i :: i != id ==> (i in s'.calls <==> i in s.calls) && (i in s.calls ==> s'.calls[i] == s.calls[i]))
    && (forall k :: k != key ==> (k in s'.pool <==> k in s.pool) && (k in s.pool ==> s'.pool[k] == s.pool[k]))
    && (key in s.pool ==> key in s'.pool && forall f :: f != fd ==> (f in s'.pool[key] <==> f in s.pool[key]))
    && s.answered <= s'.answered
  }

  lemma LocalOpen(c: Codec, s: State, s': State, fd: Fd, id: CallId, key: bytes)
    requires Inv(c, s) && OwnedBy(s, fd, id, key) && SameBut(s, s', fd, id, key)
    requires fd in s'.open ==> OpenOk(c, s', fd)
    ensures forall f :: f in s'.open ==> OpenOk(c, s', f)
  {
    hide Flows, Quiet, Serves, CallOk, KeyOk;
    forall f | f in s'.open && f != fd ensures OpenOk(c, s', f) {
      assert OpenOk(c, s, f);
    }
  }

  lemma LocalCalls(c: Codec, s: State, s': State, fd: Fd, id: CallId, key: bytes)
    requires Inv(c, s) && OwnedBy(s, fd, id, key) && SameBut(s, s', fd, id, key)
    requires id in s'.calls ==> CallOk(s', id)
    ensures forall i :: i in s'.calls ==> CallOk(s', i)
  {
    hide OpenOk, KeyOk;
    forall i | i in s'.calls && i != id ensures CallOk(s', i) {
      assert CallOk(s, i);
    }
  }

  lemma LocalKeys(c: Codec, s: State, s': State, fd: Fd, id: CallId, key: bytes)
    requires Inv(c, s) && OwnedBy(s, fd, id, key) && SameBut(s, s', fd, id, key)
    requires key in s'.pool ==> KeyOk(s', key)
    ensures forall k :: k in s'.pool ==> KeyOk(s', k)
  {
    hide OpenOk, CallOk;
    forall k | k in s'.pool && k != key ensures KeyOk(s', k) {
      assert KeyOk(s, k);
    }
  }

  /** A step touches one descriptor, one call and one key; the rest of the invariant stays. */
  lemma Local(c: Codec, s: State, s': State, fd: Fd, id: CallId, key: bytes)
    requires Inv(c, s) && Locally(c, s, s', fd, id, key)
    ensures Inv(c, s')
  {
    hide OpenOk, CallOk, KeyOk, SameBut, OwnedBy;
    LocalOpen(c, s, s', fd, id, key);
    LocalCalls(c, s, s', fd, id, key);
    LocalKeys(c, s, s', fd, id, key);
  }

  // ---- Steps on one connection ----

  lemma {:induction false} FramesAppend(c: Codec, rs: seq<Request>, r: Request)
    ensures Frames(c, rs + [r]) == Frames(c, rs) + Frame(c, r)
  {
    hide Frame;
    if rs == [] {
      assert [r][1..] == [];
    } else {
      assert (rs + [r])[1..] == rs[1..] + [r];
      FramesAppend(c, rs[1..], r);
    }
  }

  lemma FrameNotEmpty(c: Codec, r: Request)
    ensures |Frame(c, r)| >= 4
  {
  }

  /** A request started on a quiet connection. */
  lemma AskKeeps(c: Codec, conn: Conn, id: CallId, r: Request)
    requires Flows(c, conn) && Quiet(c, conn) && Fits(c, r)
    ensures Flows(c, Ask(conn, Asked(id, r))) && Serves(c, Ask(conn, Asked(id, r)), id, r, Frame(c, r), [])
  {
    hide Frame, Frames, Fits, Output;
    var conn' := Ask(conn, Asked(id, r));
    assert Requests(conn'.asked) == Requests(conn.asked) + [r];
    FramesAppend(c, Requests(conn.asked), r);
    assert conn'.answers[..|conn'.asked| - 1] == conn.answers;
  }

  lemma NewIsQuiet(c: Codec)
    ensures Flows(c, Conn([], [], 0, [], 0)) && Quiet(c, Conn([], [], 0, [], 0))
  {
  }

  lemma SendKeeps(c: Codec, conn: Conn, id: CallId, r: Request, left: bytes, n: nat)
    requires Flows(c, conn) && Serves(c, conn, id, r, left, []) && n <= |left|
    ensures Flows(c, Send(conn, left[..n])) && Serves(c, Send(conn, left[..n]), id, r, left[n..], [])
  {
    hide Frame, Frames, Fits, Output;
    assert (conn.sent + left[..n]) + left[n..] == conn.sent + left;
  }

  /** The requests the provider has taken are the first of those asked. */
  lemma TakenAreAsked(c: Codec, conn: Conn)
    requires Lawful(c) && Flows(c, conn)
    ensures Taken(c, conn) <= Requests(conn.asked)
  {
    hide Frame, Frames, Fits, Output, Drain, Lawful;
    var rs, part := Requests(conn.asked), conn.sent[..conn.arrived];
    assert part <= conn.sent <= Frames(c, rs);
    assert forall r :: r in rs ==> Fits(c, r);
    JoinedOne(part);
    RequestsArriveInOrder(c, rs, [part]);
    ChunksDoNotMatter(c, [part]);
  }

  /** An answer can only be to the call's own request. */
  lemma AnswerKeeps(c: Codec, conn: Conn, index: nat, body: bytes)
    requires Lawful(c) && Flows(c, conn) && |body| < MAX_RESPONSE && index < |Taken(c, conn)|
    requires |conn.answers| > 0 ==> conn.answers[|conn.answers| - 1].index < index
    requires |conn.answers| >= |conn.asked| - 1
    ensures var conn' := conn.(answers := conn.answers + [AnswerTo(index, body)]);
            && !Quiet(c, conn) && index == |conn.asked| - 1 == |conn.answers|
            && Taken(c, conn)[index] == conn.asked[index].request
            && Flows(c, conn') && Output(conn'.answers) == Output(conn.answers) + Message(body)
            && conn'.answers[..index] == conn.answers == conn.answers[..index]
  {
    hide Frames, Fits, Taken;
    TakenAreAsked(c, conn);
    var answers' := conn.answers + [AnswerTo(index, body)];
    assert answers'[..|answers'| - 1] == conn.answers;
  }

  lemma AnswerServes(c: Codec, conn: Conn, conn': Conn, id: CallId, r: Request, left: bytes, received: bytes)
    requires Serves(c, conn, id, r, left, received)
    requires conn'.asked == conn.asked && conn'.sent == conn.sent && conn'.read == conn.read
    requires |conn.answers| == |conn.asked| - 1 && |conn'.answers| == |conn.asked|
    requires conn'.answers[..|conn.answers|] == conn.answers && Output(conn.answers) <= Output(conn'.answers)
    ensures Serves(c, conn', id, r, left, received)
  {
    hide Frames, Output;
    assert conn.answers[..|conn.asked| - 1] == conn.answers == conn'.answers[..|conn.asked| - 1];
  }

  lemma RecvKeeps(c: Codec, conn: Conn, id: CallId, r: Request, received: bytes, n: nat)
    requires Flows(c, conn) && Serves(c, conn, id, r, [], received) && conn.read + n <= |Output(conn.answers)|
    ensures var conn' := conn.(read := conn.read + n);
            Flows(c, conn') && Serves(c, conn', id, r, [], received + Output(conn.answers)[conn.read..conn.read + n])
  {
    hide Frames, Fits, Output;
    var earlier, all := Output(conn.answers[..|conn.asked| - 1]), Output(conn.answers);
    var more := all[conn.read..conn.read + n];
    assert all[..conn.read] == earlier + received;
    assert all[..conn.read + n] == all[..conn.read] + more;
    assert earlier + (received + more) == all[..conn.read + n];
  }

  /** What has been received whole is the answer to the call's own request, and leaves the connection quiet. */
  lemma FinishGives(c: Codec, conn: Conn, id: CallId, r: Request, received: bytes)
    requires Flows(c, conn) && Serves(c, conn, id, r, [], received) && Wanted(received) == 0
    ensures Quiet(c, conn) && Body(received) == conn.answers[|conn.asked| - 1].body
  {
    hide Frames, Fits;
    var n := |conn.asked|;
    assert |conn.answers| == n by {
      assert conn.answers[..n - 1] == conn.answers || |conn.answers| == n;
      hide Output;
    }
    var earlier, body := Output(conn.answers[..n - 1]), conn.answers[n - 1].body;
    assert Output(conn.answers) == earlier + Message(body);
    hide Output;
    assert (earlier + Message(body))[..conn.read] == earlier + received;
    SameStart(earlier, received, Message(body));
    WholeMessage(received, body);
  }

  lemma SameStart(a: bytes, b: bytes, c: bytes)
    requires a + b <= a + c
    ensures b <= c
  {
    assert (a + b)[|a|..] == b && (a + c)[|a|..] == c;
    assert forall i :: 0 <= i < |b| ==> b[i] == (a + b)[|a| + i] == (a + c)[|a| + i];
  }

  lemma WholeMessage(received: bytes, body: bytes)
    requires |body| < MAX_RESPONSE && Wanted(received) == 0 && received <= Message(body)
    ensures received == Message(body) && Body(received) == body
  {
    hide Prefix, Length;
    LengthOfPrefix(|body|);
    assert Message(body) == Prefix(|body|) + body;
    assert received[..4] == Prefix(|body|);
  }

  // ---- Each step keeps the invariant ----

  lemma KeepsBegin(c: Codec, s: State, id: CallId, request: Request, connect: Option<Fd>)
    requires Inv(c, s) && Enabled(c, s, Begin(id, request, connect))
    ensures Inv(c, Next(c, s, Begin(id, request, connect)))
  {
    hide OpenOk, CallOk, KeyOk, SameBut, OwnedBy, Key, Inv, Idle, Popped, Fits, Frame, Ask;
    var key := Key(request);
    var fds := Idle(s.pool, key);
    if fds != [] {
      BeginPooled(c, s, id, request, connect);
      Local(c, s, Next(c, s, Begin(id, request, connect)), fds[|fds| - 1], id, key);
    } else if connect.Some? {
      BeginNew(c, s, id, request, connect.value);
      Local(c, s, Next(c, s, Begin(id, request, connect)), connect.value, id, key);
    } else {
      var unused := Unused(s.open.Keys);
      BeginFails(s, c, id, request, unused);
      Local(c, s, Next(c, s, Begin(id, request, connect)), unused, id, key);
    }
  }

  lemma Unused(names: set<nat>) returns (n: nat)
    ensures n !in names
  {
    n := Above(names);
  }

  lemma Above(names: set<nat>) returns (n: nat)
    ensures forall x :: x in names ==> x < n
  {
    if names == {} {
      n := 0;
    } else {
      var x :| x in names;
      n := Above(names - {x});
      assert forall y :: y in names ==> y == x || y in names - {x};
      if n <= x { n := x + 1; }
    }
  }

  /** What holds of the one descriptor, the one call and the one key that a step touches. */
  ghost predicate Locally(c: Codec, s: State, s': State, fd: Fd, id: CallId, key: bytes) {
    && OwnedBy(s, fd, id, key) && SameBut(s, s', fd, id, key)
    && (fd in s'.open ==> OpenOk(c, s', fd))
    && (id in s'.calls ==> CallOk(s', id))
    && (key in s'.pool ==> KeyOk(s', key))
  }

  lemma BeginPooled(c: Codec, s: State, id: CallId, request: Request, connect: Option<Fd>)
    requires Inv(c, s) && Enabled(c, s, Begin(id, request, connect)) && Idle(s.pool, Key(request)) != []
    ensures var fds := Idle(s.pool, Key(request));
            Locally(c, s, Next(c, s, Begin(id, request, connect)), fds[|fds| - 1], id, Key(request))
  {
    hide Flows, Quiet, Serves, Frame, Fits, Key, Logged, OwnedBy, SameBut, CallOk;
    var key := Key(request);
    var fds := Idle(s.pool, key);
    var fd := fds[|fds| - 1];
    BeginPooledTouches(c, s, id, request, connect);
    BeginPooledCall(c, s, id, request, connect);
    assert KeyOk(s, key) && fd in fds;
    assert OpenOk(c, s, fd);
    AskKeeps(c, ConnOf(s, fd), id, request);
    FrameNotEmpty(c, request);
    AskLogged(ConnOf(s, fd), Asked(id, request), s.answered);
  }

  lemma AskLogged(conn: Conn, asked: Asked, answered: set<Exchange>)
    requires Logged(conn, answered)
    ensures Logged(Ask(conn, asked), answered)
  {
  }

  lemma BeginPooledCall(c: Codec, s: State, id: CallId, request: Request, connect: Option<Fd>)
    requires Inv(c, s) && Enabled(c, s, Begin(id, request, connect)) && Idle(s.pool, Key(request)) != []
    ensures CallOk(Next(c, s, Begin(id, request, connect)), id)
  {
    hide Inv, Key, Fits, Frame;
  }

  lemma BeginPooledTouches(c: Codec, s: State, id: CallId, request: Request, connect: Option<Fd>)
    requires Inv(c, s) && Enabled(c, s, Begin(id, request, connect)) && Idle(s.pool, Key(request)) != []
    ensures var s', fds := Next(c, s, Begin(id, request, connect)), Idle(s.pool, Key(request));
            var fd := fds[|fds| - 1];
            OwnedBy(s, fd, id, Key(request)) && SameBut(s, s', fd, id, Key(request)) && fd in s.open
  {
    hide OpenOk, CallOk, Frame, Fits, Key;
    var key := Key(request);
    var fds := Idle(s.pool, key);
    var fd := fds[|fds| - 1];
    assert KeyOk(s, key) && fd in fds;
    assert forall f :: f in fds <==> f == fd || f in fds[..|fds| - 1];
  }

  lemma BeginNew(c: Codec, s: State, id: CallId, request: Request, fd: Fd)
    requires Inv(c, s) && Enabled(c, s, Begin(id, request, Some(fd))) && Idle(s.pool, Key(request)) == []
    ensures Locally(c, s, Next(c, s, Begin(id, request, Some(fd))), fd, id, Key(request))
  {
    hide Flows, Quiet, Serves, Frame, Fits, Key, OwnedBy, SameBut, CallOk, KeyOk;
    BeginNewTouches(c, s, id, request, fd);
    NewIsQuiet(c);
    AskKeeps(c, ConnOf(s, fd), id, request);
    FrameNotEmpty(c, request);
  }

  lemma BeginNewTouches(c: Codec, s: State, id: CallId, request: Request, fd: Fd)
    requires Inv(c, s) && Enabled(c, s, Begin(id, request, Some(fd))) && Idle(s.pool, Key(request)) == []
    ensures var s', key := Next(c, s, Begin(id, request, Some(fd))), Key(request);
            && OwnedBy(s, fd, id, key) && SameBut(s, s', fd, id, key)
            && id in s'.calls && CallOk(s', id) && key in s'.pool && KeyOk(s', key)
  {
    hide OpenOk, Frame, Fits, Key;
  }

  lemma BeginFails(s: State, c: Codec, id: CallId, request: Request, unused: Fd)
    requires Inv(c, s) && Enabled(c, s, Begin(id, request, None)) && Idle(s.pool, Key(request)) == []
    requires unused !in s.open
    ensures Locally(c, s, Next(c, s, Begin(id, request, None)), unused, id, Key(request))
  {
    hide OpenOk, Frame, Fits, Key;
  }

  lemma KeepsSendSome(c: Codec, s: State, id: CallId, n: nat)
    requires Inv(c, s) && Enabled(c, s, SendSome(id, n))
    ensures Inv(c, Next(c, s, SendSome(id, n)))
  {
    hide Flows, Quiet, Serves, Key, Inv, Locally;
    var call, s' := s.calls[id], Next(c, s, SendSome(id, n));
    BusyOpen(c, s, id);
    SendKeeps(c, ConnOf(s, call.fd), id, call.request, call.left, n);
    OwnConn(c, s, s', id, call.fd, s'.open[call.fd].conn, s'.calls[id]);
    Local(c, s, s', call.fd, id, Key(call.request));
  }

  lemma BusyOpen(c: Codec, s: State, id: CallId)
    requires Inv(c, s) && id in s.calls && (s.calls[id].Sending? || s.calls[id].Receiving?)
    ensures s.calls[id].fd in s.open && OpenOk(c, s, s.calls[id].fd) && s.open[s.calls[id].fd].owner == Used(id)
  {
    hide OpenOk;
    assert CallOk(s, id);
  }

  /** When a call and its own connection change, only the connection is to be checked. */
  lemma OwnConn(c: Codec, s: State, s': State, id: CallId, fd: Fd, conn: Conn, call: Call)
    requires Inv(c, s) && id in s.calls && (s.calls[id].Sending? || s.calls[id].Receiving?) && s.calls[id].fd == fd
    requires (call.Sending? || call.Receiving?) && call.fd == fd
    requires s'.pool == s.pool && s'.answered == s.answered
    requires s'.open == s.open[fd := Open(conn, Used(id))] && s'.calls == s.calls[id := call]
    ensures fd in s'.open
    ensures OpenOk(c, s', fd) ==> Locally(c, s, s', fd, id, Key(s.calls[id].request))
  {
    hide OpenOk, Key, NoRepeats;
    var key := Key(s.calls[id].request);
    assert CallOk(s, id) && (key in s.pool ==> KeyOk(s, key));
  }

  lemma KeepsClose(c: Codec, s: State, id: CallId)
    requires Inv(c, s) && id in s.calls && (s.calls[id].Sending? || s.calls[id].Receiving?)
    ensures Inv(c, Closed(s, id))
  {
    hide Flows, Quiet, Serves, Key;
    var call := s.calls[id];
    assert CallOk(s, id) && OpenOk(c, s, call.fd);
    var key := Key(call.request);
    assert key in s.pool ==> KeyOk(s, key);
    Local(c, s, Closed(s, id), call.fd, id, key);
  }

  /** The call and the key that a step on a descriptor concerns. */
  lemma OwnerOf(c: Codec, s: State, fd: Fd) returns (id: CallId, key: bytes)
    requires Inv(c, s) && fd in s.open
    ensures OwnedBy(s, fd, id, key) && (id in s.calls ==> s.open[fd].owner == Used(id))
  {
    hide Flows, Quiet, Serves, KeyOk;
    assert OpenOk(c, s, fd);
    match s.open[fd].owner
    case Pooled(k) =>
      key := k;
      id := Unused(s.calls.Keys);
    case Used(i) =>
      id, key := i, [];
  }

  lemma KeepsArrive(c: Codec, s: State, fd: Fd, n: nat)
    requires Inv(c, s) && Enabled(c, s, Arrive(fd, n))
    ensures Inv(c, Next(c, s, Arrive(fd, n)))
  {
    hide Inv, Locally, OwnedBy;
    var id, key := OwnerOf(c, s, fd);
    ArriveLocally(c, s, fd, n, id, key);
    Local(c, s, Next(c, s, Arrive(fd, n)), fd, id, key);
  }

  lemma ArriveLocally(c: Codec, s: State, fd: Fd, n: nat, id: CallId, key: bytes)
    requires Inv(c, s) && Enabled(c, s, Arrive(fd, n)) && OwnedBy(s, fd, id, key)
    ensures Locally(c, s, Next(c, s, Arrive(fd, n)), fd, id, key)
  {
    hide Flows, Quiet, Serves, OwnedBy, Locally, Inv;
    var conn := s.open[fd].conn;
    OwnerKnown(c, s, fd, id, key);
    ArriveKeeps(c, conn, n);
    OnlyConn(c, s, Next(c, s, Arrive(fd, n)), fd, conn.(arrived := conn.arrived + n), id, key);
    if s.open[fd].owner.Used? {
      var call := s.calls[id];
      ArriveServes(c, conn, n, id, call.request, if call.Sending? then call.left else [],
                   if call.Sending? then [] else call.received);
    }
  }

  lemma OwnerKnown(c: Codec, s: State, fd: Fd, id: CallId, key: bytes)
    requires Inv(c, s) && fd in s.open && OwnedBy(s, fd, id, key)
    ensures OpenOk(c, s, fd) && s.open[fd].owner in {Used(id), Pooled(key)}
  {
  }

  /** When only the connection changes, only what holds of the connection is to be checked. */
  lemma OnlyConn(c: Codec, s: State, s': State, fd: Fd, conn: Conn, id: CallId, key: bytes)
    requires Inv(c, s) && OwnedBy(s, fd, id, key) && fd in s.open
    requires s'.calls == s.calls && s'.pool == s.pool && s.answered <= s'.answered
    requires s'.open == s.open[fd := s.open[fd].(conn := conn)]
    ensures fd in s'.open
    ensures OpenOk(c, s', fd) ==> Locally(c, s, s', fd, id, key)
  {
    hide OpenOk;
    assert (id in s.calls ==> CallOk(s, id)) && (key in s.pool ==> KeyOk(s, key));
  }

  lemma ArriveKeeps(c: Codec, conn: Conn, n: nat)
    requires Flows(c, conn) && conn.arrived + n <= |conn.sent|
    ensures Flows(c, conn.(arrived := conn.arrived + n))
    ensures Quiet(c, conn) ==> Quiet(c, conn.(arrived := conn.arrived + n))
  {
    hide Frames, Fits, Output;
  }

  lemma ArriveServes(c: Codec, conn: Conn, n: nat, id: CallId, r: Request, left: bytes, received: bytes)
    requires Serves(c, conn, id, r, left, received)
    ensures Serves(c, conn.(arrived := conn.arrived + n), id, r, left, received)
  {
    hide Frames, Output;
  }

  lemma KeepsAnswer(c: Codec, s: State, fd: Fd, index: nat, body: bytes)
    requires Lawful(c) && Inv(c, s) && Enabled(c, s, Answer(fd, index, body))
    ensures Inv(c, Next(c, s, Answer(fd, index, body)))
  {
    hide Inv, Locally, OwnedBy, Taken, Lawful;
    var id, key := OwnerOf(c, s, fd);
    AnswerLocally(c, s, fd, index, body, id, key);
    Local(c, s, Next(c, s, Answer(fd, index, body)), fd, id, key);
  }

  lemma AnswerLocally(c: Codec, s: State, fd: Fd, index: nat, body: bytes, id: CallId, key: bytes)
    requires Lawful(c) && Inv(c, s) && Enabled(c, s, Answer(fd, index, body)) && OwnedBy(s, fd, id, key)
    ensures Locally(c, s, Next(c, s, Answer(fd, index, body)), fd, id, key)
  {
    hide Flows, Quiet, Serves, Taken, Lawful, Output, OwnedBy, Locally, Inv;
    var conn, s' := s.open[fd].conn, Next(c, s, Answer(fd, index, body));
    OwnerKnown(c, s, fd, id, key);
    OnlyConn(c, s, s', fd, s'.open[fd].conn, id, key);
    ServedCount(c, s, fd);
    AnswerKeeps(c, conn, index, body);
    var call := s.calls[id];
    AnswerServes(c, conn, s'.open[fd].conn, id, call.request, if call.Sending? then call.left else [],
                 if call.Sending? then [] else call.received);
  }

  /** Every open connection has an answer to each of its requests but perhaps the last. */
  lemma ServedCount(c: Codec, s: State, fd: Fd)
    requires fd in s.open && OpenOk(c, s, fd)
    ensures |s.open[fd].conn.answers| >= |s.open[fd].conn.asked| - 1
    ensures !Quiet(c, s.open[fd].conn) ==> s.open[fd].owner.Used?
  {
    hide Flows, Frames, Output;
  }

  lemma KeepsRecvSome(c: Codec, s: State, id: CallId, n: nat)
    requires Inv(c, s) && Enabled(c, s, RecvSome(id, n))
    ensures Inv(c, Next(c, s, RecvSome(id, n)))
  {
    hide Flows, Quiet, Serves, Key, Wanted, Output, Inv, Locally;
    var call, s' := s.calls[id], Next(c, s, RecvSome(id, n));
    BusyOpen(c, s, id);
    RecvKeeps(c, ConnOf(s, call.fd), id, call.request, call.received, n);
    OwnConn(c, s, s', id, call.fd, s'.open[call.fd].conn, s'.calls[id]);
    Local(c, s, s', call.fd, id, Key(call.request));
  }

  lemma KeepsFinish(c: Codec, s: State, id: CallId)
    requires Inv(c, s) && Enabled(c, s, Finish(id, true))
    ensures Inv(c, Next(c, s, Finish(id, true)))
  {
    hide Inv, Locally, Key, Wanted;
    FinishLocally(c, s, id);
    Local(c, s, Next(c, s, Finish(id, true)), s.calls[id].fd, id, Key(s.calls[id].request));
  }

  lemma FinishLocally(c: Codec, s: State, id: CallId)
    requires Inv(c, s) && Enabled(c, s, Finish(id, true))
    ensures Locally(c, s, Next(c, s, Finish(id, true)), s.calls[id].fd, id, Key(s.calls[id].request))
  {
    hide Flows, Serves, Key, Wanted, Output, Body, Quiet, OwnedBy, SameBut;
    FinishTouches(c, s, id);
    var call := s.calls[id];
    var conn, key := ConnOf(s, call.fd), Key(call.request);
    assert CallOk(s, id) && OpenOk(c, s, call.fd) && (key in s.pool ==> KeyOk(s, key));
    FinishGives(c, conn, id, call.request, call.received);
    LastAsked(c, conn, id, call.request, call.received);
  }

  lemma FinishTouches(c: Codec, s: State, id: CallId)
    requires Inv(c, s) && Enabled(c, s, Finish(id, true))
    ensures var call := s.calls[id];
            OwnedBy(s, call.fd, id, Key(call.request))
            && SameBut(s, Next(c, s, Finish(id, true)), call.fd, id, Key(call.request))
  {
    hide OpenOk, KeyOk, Key, Wanted, Body;
    assert CallOk(s, id);
  }

  lemma LastAsked(c: Codec, conn: Conn, id: CallId, r: Request, received: bytes)
    requires Serves(c, conn, id, r, [], received) && Quiet(c, conn)
    ensures |conn.answers| == |conn.asked| > 0 && conn.asked[|conn.asked| - 1] == Asked(id, r)
  {
    hide Frames, Output;
  }

  lemma StepKeeps(c: Codec, s: State, step: Step)
    requires Lawful(c) && Inv(c, s) && Enabled(c, s, step)
    ensures Inv(c, Next(c, s, step))
  {
    hide Inv, Lawful, Taken, Key, Wanted, Output, Body;
    match step
    case Begin(id, request, connect) => KeepsBegin(c, s, id, request, connect);
    case SendSome(id, n) => KeepsSendSome(c, s, id, n);
    case SendFails(id) => KeepsClose(c, s, id);
    case Arrive(fd, n) => KeepsArrive(c, s, fd, n);
    case Answer(fd, index, body) => KeepsAnswer(c, s, fd, index, body);
    case RecvSome(id, n) => KeepsRecvSome(c, s, id, n);
    case RecvFails(id) => KeepsClose(c, s, id);
    case Finish(id, parses) => if parses { KeepsFinish(c, s, id); } else { KeepsClose(c, s, id); }
  }

  lemma {:induction false} RunKeeps(c: Codec, steps: seq<Step>)
    requires Lawful(c) && Run(c, steps).Some?
    ensures Inv(c, Run(c, steps).value)
  {
    if |steps| > 0 {
      hide Inv, Enabled, Next, Lawful;
      RunKeeps(c, steps[..|steps| - 1]);
      StepKeeps(c, Run(c, steps[..|steps| - 1]).value, steps[|steps| - 1]);
    }
  }

  // ---- The promises ----

  /** A call that succeeds got the provider's answer to the very request it was begun with. */
  lemma OwnAnswer(c: Codec, steps: seq<Step>, id: CallId)
    requires Lawful(c) && Run(c, steps).Some? && id in Run(c, steps).value.calls
    requires Run(c, steps).value.calls[id].Succeeded?
    ensures var s := Run(c, steps).value;
            var call := s.calls[id];
            && Exchange(id, call.request, call.body) in s.answered
            && Begun(steps, id, call.request)
            && (forall e :: e in s.answered && e.id == id ==> e == Exchange(id, call.request, call.body))
  {
    hide OpenOk, KeyOk, Run, Lawful;
    RunKeeps(c, steps);
    assert CallOk(Run(c, steps).value, id);
    RequestBegun(c, steps, id);
    RunAnswersOnce(c, steps);
    assert AnswersOnce(Run(c, steps).value);
  }

  /** A pooled connection has no outstanding request and no unread byte. */
  lemma PooledAreQuiet(c: Codec, steps: seq<Step>, key: bytes, fd: Fd)
    requires Lawful(c) && Run(c, steps).Some?
    requires key in Run(c, steps).value.pool && fd in Run(c, steps).value.pool[key]
    ensures var s := Run(c, steps).value;
            fd in s.open && Quiet(c, s.open[fd].conn)
  {
    hide Run, Quiet, Flows, Serves, CallOk, Lawful;
    RunKeeps(c, steps);
    var s := Run(c, steps).value;
    assert KeyOk(s, key);
    assert OpenOk(c, s, fd);
  }

  ghost predicate IsPooled(s: State, fd: Fd) {
    exists key :: key in s.pool && fd in s.pool[key]
  }

  ghost predicate Uses(s: State, id: CallId, fd: Fd) {
    id in s.calls && (s.calls[id].Sending? || s.calls[id].Receiving?) && s.calls[id].fd == fd
  }

  ghost predicate IsUsed(s: State, fd: Fd) {
    exists id :: Uses(s, id, fd)
  }

  /** Every open descriptor is pooled or in use, and not both; it is pooled under one key or used by one
      call; no closed one is either, and no key pools more than 64. */
  lemma DescriptorsConserved(c: Codec, steps: seq<Step>, fd: Fd)
    requires Lawful(c) && Run(c, steps).Some?
    ensures var s := Run(c, steps).value;
            && (fd in s.open <==> IsPooled(s, fd) || IsUsed(s, fd))
            && !(IsPooled(s, fd) && IsUsed(s, fd))
    ensures Tidy(Run(c, steps).value.pool)
    ensures var s := Run(c, steps).value;
            forall i, j :: Uses(s, i, fd) && Uses(s, j, fd) ==> i == j
  {
    hide Run, Quiet, Flows, Serves, Logged, Lawful;
    RunKeeps(c, steps);
    var s := Run(c, steps).value;
    forall k | k in s.pool ensures KeyOk(s, k) {
    }
    forall i | i in s.calls ensures CallOk(s, i) {
    }
    assert fd in s.open ==> OpenOk(c, s, fd);
    assert fd in s.open && s.open[fd].owner.Used? ==> Uses(s, s.open[fd].owner.id, fd);
  }

  ghost predicate Begun(steps: seq<Step>, id: CallId, request: Request) {
    exists connect :: Begin(id, request, connect) in steps
  }

  /** A call keeps the request it was begun with. */
  lemma {:induction false} RequestBegun(c: Codec, steps: seq<Step>, id: CallId)
    requires Run(c, steps).Some? && id in Run(c, steps).value.calls
    requires !Run(c, steps).value.calls[id].Failed?
    ensures Begun(steps, id, Run(c, steps).value.calls[id].request)
  {
    hide Next, Enabled, Run, Begun;
    RunUnfolds(c, steps);
    if |steps| > 0 {
      var earlier, step := steps[..|steps| - 1], steps[|steps| - 1];
      var before := Run(c, earlier).value;
      RequestKept(c, before, step, id);
      if id in before.calls && !before.calls[id].Failed? {
        RequestBegun(c, earlier, id);
        BegunLater(earlier, step, id, before.calls[id].request);
        assert steps == earlier + [step];
      } else {
        JustBegun(steps);
      }
    }
  }

  lemma JustBegun(steps: seq<Step>)
    requires |steps| > 0 && steps[|steps| - 1].Begin?
    ensures var step := steps[|steps| - 1]; Begun(steps, step.id, step.request)
  {
    var step := steps[|steps| - 1];
    assert Begin(step.id, step.request, step.connect) in steps;
  }

  lemma RunUnfolds(c: Codec, steps: seq<Step>)
    requires Run(c, steps).Some?
    ensures |steps| == 0 ==> Run(c, steps).value == INITIAL
    ensures |steps| > 0 ==>
              var before, step := Run(c, steps[..|steps| - 1]), steps[|steps| - 1];
              before.Some? && Enabled(c, before.value, step) && Run(c, steps).value == Next(c, before.value, step)
  {
    hide Next, Enabled;
  }

  /** A call gets its request when it begins and keeps it. */
  lemma RequestKept(c: Codec, s: State, step: Step, id: CallId)
    requires Enabled(c, s, step)
    ensures var s' := Next(c, s, step);
            id in s'.calls && !s'.calls[id].Failed? ==>
              if id in s.calls && !s.calls[id].Failed? then s'.calls[id].request == s.calls[id].request
              else step.Begin? && step.id == id && s'.calls[id].request == step.request
  {
    hide Frame, Key, Taken, Output, Wanted, Body, Fits, Idle, Popped, Pushed;
  }

  lemma BegunLater(steps: seq<Step>, step: Step, id: CallId, request: Request)
    requires Begun(steps, id, request)
    ensures Begun(steps + [step], id, request)
  {
    var connect :| Begin(id, request, connect) in steps;
    assert Begin(id, request, connect) in steps + [step];
  }

  // ---- At most one answer to a call ----

  ghost predicate AnswersOnce(s: State) {
    && (forall e :: e in s.answered ==> e.id in s.calls)
    && (forall e, f :: e in s.answered && f in s.answered && e.id == f.id ==> e == f)
    && (forall fd :: fd in s.open && |s.open[fd].conn.answers| < |s.open[fd].conn.asked| ==> Unanswered(s, fd))
  }

  ghost predicate Unanswered(s: State, fd: Fd)
    requires fd in s.open
  {
    var asked := s.open[fd].conn.asked;
    && |asked| > 0 && asked[|asked| - 1].id in s.calls
    && forall e :: e in s.answered ==> e.id != asked[|asked| - 1].id
  }

  lemma {:induction false} RunAnswersOnce(c: Codec, steps: seq<Step>)
    requires Lawful(c) && Run(c, steps).Some?
    ensures AnswersOnce(Run(c, steps).value)
  {
    if |steps| > 0 {
      hide Inv, Enabled, Next, Lawful, AnswersOnce;
      var earlier := steps[..|steps| - 1];
      RunKeeps(c, earlier);
      RunAnswersOnce(c, earlier);
      StepAnswersOnce(c, Run(c, earlier).value, steps[|steps| - 1]);
    }
  }

  lemma StepAnswersOnce(c: Codec, s: State, step: Step)
    requires Lawful(c) && Inv(c, s) && AnswersOnce(s) && Enabled(c, s, step)
    ensures AnswersOnce(Next(c, s, step))
  {
    hide Inv, AnswersOnce, Frame, Key, Taken, Output, Wanted, Body, Fits;
    match step
    case Begin(id, request, connect) => BeginAnswersOnce(c, s, id, request, connect);
    case SendSome(_, _) => SameAnswers(s, Next(c, s, step));
    case SendFails(_) => SameAnswers(s, Next(c, s, step));
    case Arrive(_, _) => SameAnswers(s, Next(c, s, step));
    case Answer(fd, index, body) => AnswerAnswersOnce(c, s, fd, index, body);
    case RecvSome(_, _) => SameAnswers(s, Next(c, s, step));
    case RecvFails(_) => SameAnswers(s, Next(c, s, step));
    case Finish(_, _) => SameAnswers(s, Next(c, s, step));
  }

  lemma SameAnswers(s: State, s': State)
    requires AnswersOnce(s) && s'.answered == s.answered && s.calls.Keys <= s'.calls.Keys
    requires forall fd :: fd in s'.open ==> s'.open[fd].conn.asked == ConnOf(s, fd).asked
                                            && s'.open[fd].conn.answers == ConnOf(s, fd).answers
    ensures AnswersOnce(s')
  {
    forall fd | fd in s'.open && |s'.open[fd].conn.answers| < |s'.open[fd].conn.asked| ensures Unanswered(s', fd) {
      assert fd in s.open;
      assert Unanswered(s, fd);
    }
  }

  lemma BeginAnswersOnce(c: Codec, s: State, id: CallId, request: Request, connect: Option<Fd>)
    requires AnswersOnce(s) && Enabled(c, s, Begin(id, request, connect))
    ensures AnswersOnce(Next(c, s, Begin(id, request, connect)))
  {
    hide Frame, Key, Fits, Idle, Popped;
    var s' := Next(c, s, Begin(id, request, connect));
    forall fd | fd in s'.open && |s'.open[fd].conn.answers| < |s'.open[fd].conn.asked| ensures Unanswered(s', fd) {
      assert fd in s.open && s'.open[fd] == s.open[fd] ==> Unanswered(s, fd);
    }
  }

  /** Whoever waits for an answer on a connection owns it. */
  lemma OutstandingOwner(c: Codec, s: State, fd: Fd)
    requires Inv(c, s) && fd in s.open && |s.open[fd].conn.answers| < |s.open[fd].conn.asked|
    ensures var conn := s.open[fd].conn;
            |conn.answers| == |conn.asked| - 1 && s.open[fd].owner == Used(conn.asked[|conn.asked| - 1].id)
    ensures var owner := s.open[fd].owner.id; Uses(s, owner, fd)
  {
    hide Flows, Frames, Output, Logged, CallOk, KeyOk;
    assert OpenOk(c, s, fd);
  }

  lemma AnswerAnswersOnce(c: Codec, s: State, fd: Fd, index: nat, body: bytes)
    requires Lawful(c) && Inv(c, s) && AnswersOnce(s) && Enabled(c, s, Answer(fd, index, body))
    ensures AnswersOnce(Next(c, s, Answer(fd, index, body)))
  {
    hide Inv, OpenOk, Flows, Quiet, Taken, Output, Lawful;
    var conn, s' := s.open[fd].conn, Next(c, s, Answer(fd, index, body));
    OpenHere(c, s, fd);
    AnswerKeeps(c, conn, index, body);
    OutstandingOwner(c, s, fd);
    assert Unanswered(s, fd);
    forall f | f in s'.open && |s'.open[f].conn.answers| < |s'.open[f].conn.asked| ensures Unanswered(s', f) {
      assert f != fd && s'.open[f] == s.open[f];
      OutstandingOwner(c, s, f);
      assert Unanswered(s, f);
    }
  }

  lemma OpenHere(c: Codec, s: State, fd: Fd)
    requires Inv(c, s) && fd in s.open
    ensures Flows(c, s.open[fd].conn) && |s.open[fd].conn.answers| >= |s.open[fd].conn.asked| - 1
  {
    hide Flows;
    assert OpenOk(c, s, fd);
    ServedCount(c, s, fd);
  }

  // ---- The provider keeps its part ----

  /** Answers in order, each to a request of its own and with that request's response. */
  ghost predicate InOrder(services: Registry, rs: seq<Request>, answers: seq<AnswerTo>) {
    && (forall j :: 0 <= j < |answers| ==>
                      answers[j].index < |rs|
                      && Answered(services, rs[answers[j].index]) == RpcFraming.Reply(answers[j].body))
    && (forall i, j :: 0 <= i < j < |answers| ==> answers[i].index < answers[j].index)
  }

  /** The output of the provider's frame loop is such answers: each request is answered at most once, and
      in order. */
  lemma {:induction false} ProviderAnswersInOrder(services: Registry, rs: seq<Request>) returns (answers: seq<AnswerTo>)
    ensures InOrder(services, rs, answers) && Output(answers) == Responses(services, rs)
  {
    hide Answered, InOrder, Response;
    if |rs| == 0 {
      answers := [];
      NothingInOrder(services, rs);
    } else {
      var n := |rs| - 1;
      answers := ProviderAnswersInOrder(services, rs[..n]);
      InOrderNext(services, rs, answers);
      var a := Answered(services, rs[n]);
      if a.Reply? {
        OutputNext(answers, AnswerTo(n, a.body));
        answers := answers + [AnswerTo(n, a.body)];
      } else {
        NoResponse(a);
      }
    }
  }

  lemma NothingInOrder(services: Registry, rs: seq<Request>)
    ensures InOrder(services, rs, [])
  {
  }

  lemma OutputNext(answers: seq<AnswerTo>, a: AnswerTo)
    ensures Output(answers + [a]) == Output(answers) + Message(a.body)
  {
    hide Message;
    assert (answers + [a])[..|answers|] == answers;
  }

  lemma NoResponse(a: RpcFraming.Answer)
    ensures !a.Reply? ==> Response(a) == []
    ensures a.Reply? ==> Response(a) == Message(a.body)
  {
  }

  lemma InOrderNext(services: Registry, rs: seq<Request>, answers: seq<AnswerTo>)
    requires |rs| > 0 && InOrder(services, rs[..|rs| - 1], answers)
    ensures InOrder(services, rs, answers)
    ensures var n := |rs| - 1;
            var a := Answered(services, rs[n]);
            a.Reply? ==> InOrder(services, rs, answers + [AnswerTo(n, a.body)])
  {
    hide Answered;
    forall j | 0 <= j < |answers| ensures rs[..|rs| - 1][answers[j].index] == rs[answers[j].index] {
    }
  }
}
