/** The client side of a call: the pool of connections, and receiving one response. */
module RpcChannel {
  import opened Bytes
  import opened Wrappers
  import RpcFraming
  import opened Sockets

  type Fd = nat

  // ---- The pool ----

  const MAX_POOL_PER_KEY := 64

  type Pool = map<bytes, seq<Fd>>

  function Idle(p: Pool, key: bytes): seq<Fd> {
    if key in p then p[key] else []
  }

  function Popped(p: Pool, key: bytes): Pool {
    var fds := Idle(p, key);
    p[key := if fds == [] then [] else fds[..|fds| - 1]]
  }

  function Pushed(p: Pool, key: bytes, fd: Fd): Pool {
    var fds := Idle(p, key);
    p[key := if |fds| < MAX_POOL_PER_KEY then fds + [fd] else fds]
  }

  /** Each key pools at most 64 descriptors, none twice, and no descriptor is pooled under two keys. */
  ghost predicate Tidy(p: Pool) {
    && (forall key :: key in p ==> |p[key]| <= MAX_POOL_PER_KEY && NoRepeats(p[key]))
    && (forall k, l, fd :: k in p && l in p && fd in p[k] && fd in p[l] ==> k == l)
  }

  ghost predicate NoRepeats(fds: seq<Fd>) {
    forall i, j :: 0 <= i < j < |fds| ==> fds[i] != fds[j]
  }

  ghost function Pooled(p: Pool): set<Fd> {
    set key, fd | key in p && fd in p[key] :: fd
  }

  lemma PooledWhen(p: Pool, fd: Fd)
    ensures fd in Pooled(p) <==> exists key :: key in p && fd in p[key]
  {
  }

  lemma PoppedKeeps(p: Pool, key: bytes)
    requires Tidy(p)
    ensures Tidy(Popped(p, key))
    ensures var fds := Idle(p, key);
            Pooled(Popped(p, key)) == if fds == [] then Pooled(p) else Pooled(p) - {fds[|fds| - 1]}
  {
    var fds, p' := Idle(p, key), Popped(p, key);
    assert |fds| > 0 ==> forall fd :: fd in fds <==> fd in fds[..|fds| - 1] || fd == fds[|fds| - 1];
    forall k, fd ensures k in p' && fd in p'[k] <==> k in p && fd in p[k] && (fds == [] || fd != fds[|fds| - 1]) {
      assert k in p && fd in p[k] && k != key && fds != [] ==> fd != fds[|fds| - 1];
    }
    forall fd ensures fd in Pooled(p') <==> fd in Pooled(p) && (fds == [] || fd != fds[|fds| - 1]) {
      PooledWhen(p, fd);
      PooledWhen(p', fd);
    }
  }

  lemma PushedKeeps(p: Pool, key: bytes, fd: Fd)
    requires Tidy(p) && fd !in Pooled(p)
    ensures Tidy(Pushed(p, key, fd))
    ensures Pooled(Pushed(p, key, fd)) == if |Idle(p, key)| < MAX_POOL_PER_KEY then Pooled(p) + {fd} else Pooled(p)
  {
    var p' := Pushed(p, key, fd);
    forall k | k in p ensures fd !in p[k] {
      PooledWhen(p, fd);
    }
    var added := |Idle(p, key)| < MAX_POOL_PER_KEY;
    forall k, x ensures k in p' && x in p'[k] <==> (k in p && x in p[k]) || (added && k == key && x == fd) {
    }
    assert added ==> fd in p'[key];
    forall x ensures x in Pooled(p') <==> x in Pooled(p) || (x == fd && added) {
      PooledWhen(p, x);
      PooledWhen(p', x);
      assert key in p';
    }
  }

  class ConnectionPool {
    var conns: Pool
    /** The descriptors closed, for want of room or after a failure. */
    var closed: seq<Fd>

    constructor ()
      ensures conns == map[] && closed == []
    {
      conns, closed := map[], [];
    }

    /** `connect` is what `socket` and `connect` give when nothing is pooled. */
    method GetConnection(key: bytes, connect: Option<Fd>) returns (fd: Option<Fd>)
      requires Tidy(conns)
      modifies this`conns
      ensures conns == Popped(old(conns), key) && Tidy(conns)
      ensures Idle(old(conns), key) == [] ==> fd == connect && Pooled(conns) == Pooled(old(conns))
      ensures Idle(old(conns), key) != [] ==>
                fd.Some? && Idle(old(conns), key) == Idle(conns, key) + [fd.value]
                && Pooled(conns) == Pooled(old(conns)) - {fd.value}
    {
      hide Tidy, Pooled;
      PoppedKeeps(conns, key);
      if key !in conns { conns := conns[key := []]; }
      var fds := conns[key];
      if fds != [] {
        fd := Some(fds[|fds| - 1]);
        assert fds == fds[..|fds| - 1] + [fds[|fds| - 1]];
        conns := conns[key := fds[..|fds| - 1]];
      } else {
        fd := connect;
      }
    }

    method Close(fd: Fd)
      modifies this`closed
      ensures closed == old(closed) + [fd]
    {
      closed := closed + [fd];
    }

    method ReturnConnection(key: bytes, fd: Fd)
      requires Tidy(conns) && fd !in Pooled(conns)
      modifies this
      ensures conns == Pushed(old(conns), key, fd) && Tidy(conns)
      ensures if |Idle(old(conns), key)| < MAX_POOL_PER_KEY
              then Pooled(conns) == Pooled(old(conns)) + {fd} && closed == old(closed)
              else Pooled(conns) == Pooled(old(conns)) && closed == old(closed) + [fd]
    {
      hide Tidy, Pooled;
      PushedKeeps(conns, key, fd);
      if key !in conns { conns := conns[key := []]; }
      var fds := conns[key];
      if |fds| < MAX_POOL_PER_KEY {
        conns := conns[key := fds + [fd]];
      } else {
        closed := closed + [fd];
      }
    }
  }

  // ---- Receiving ----

  /** A response longer than an `int` can count is outside the model. */
  const MAX_RESPONSE := 0x8000_0000

  datatype Received = Message(body: bytes) | Broken | Waiting | Oversized

  /** The inbox starts with a whole response whose length an `int` can count. */
  predicate Whole(inbox: bytes) {
    && |inbox| >= 4 && Length(inbox[..4]) < MAX_RESPONSE
    && |inbox| >= 4 + Length(inbox[..4])
  }

  function BodyOf(inbox: bytes): bytes
    requires Whole(inbox)
  {
    inbox[4..4 + Length(inbox[..4])]
  }

  /** The calls can move the length field and then `n` bytes of body before a fatal one. */
  predicate CanReceive(calls: seq<Io>, n: nat) {
    Passes(calls) >= 4 && Passes(Left(calls, 4)) >= n
  }

  predicate IsReceived(inbox: bytes, calls: seq<Io>, parses: bytes -> bool) {
    Whole(inbox) && CanReceive(calls, |BodyOf(inbox)|) && parses(BodyOf(inbox))
  }

  /** Receives one response: on success exactly its length field and its body have been read, and it
      succeeds whenever the response is there, its body parses and the calls can move it. */
  method RecvResponse(inbox: bytes, calls: seq<Io>, parses: bytes -> bool) returns (r: Received, rest: bytes)
    ensures |rest| <= |inbox| && inbox[|inbox| - |rest|..] == rest
    ensures r.Message? ==> |r.body| < MAX_RESPONSE && inbox == Prefix(|r.body|) + r.body + rest && parses(r.body)
    ensures r.Message? <==> IsReceived(inbox, calls, parses)
    ensures r.Message? ==> r.body == BodyOf(inbox)
  {
    hide Passes, Left, Prefix, Length;
    var outcome, lenbuf, later;
    outcome, lenbuf, rest, later := Fill(inbox, 4, calls);
    if outcome.Failed? { return Broken, rest; }
    if outcome.Pending? { return Waiting, rest; }
    var len := Length(lenbuf);
    PrefixOfLength(lenbuf);
    assert inbox[..4] == lenbuf && inbox[4..] == rest;
    if len >= MAX_RESPONSE { return Oversized, rest; }
    var body;
    outcome, body, rest, later := Fill(rest, len, later);
    if outcome.Failed? { return Broken, rest; }
    if outcome.Pending? { return Waiting, rest; }
    assert inbox[4..4 + len] == body;
    if !parses(body) { return Broken, rest; }
    r := Message(body);
  }

  /** `Stuck` while the call still waits for its peer. */
  datatype CallResult = Success(body: bytes) | Failure | Stuck

  /** One call, alone.  `frame` is absent when the request does not serialise, `resolved` tells whether an
      address was found, `connect` is a new connection if one can be made, `inbox` is what the peer sends.
      The connection goes back to the pool only after exactly one response was read from it. */
  method CallMethod(pool: ConnectionPool, key: bytes, frame: Option<bytes>, resolved: bool, connect: Option<Fd>,
                    sends: seq<Io>, inbox: bytes, receives: seq<Io>, parses: bytes -> bool)
    returns (r: CallResult, fd: Option<Fd>, sent: bytes, rest: bytes)
    requires Tidy(pool.conns) && (connect.Some? ==> connect.value !in Pooled(pool.conns))
    modifies pool
    ensures Tidy(pool.conns)
    ensures fd.Some? <==> frame.Some? && resolved && (Idle(old(pool.conns), key) != [] || connect.Some?)
    ensures fd.Some? ==>
              fd.value == if Idle(old(pool.conns), key) != [] then Last(Idle(old(pool.conns), key)) else connect.value
    ensures fd.None? ==> r == Failure && sent == [] && rest == inbox && pool.closed == old(pool.closed)
    ensures r.Success? ==> fd.Some? && Some(sent) == frame && |r.body| < MAX_RESPONSE && parses(r.body)
                            && inbox == Prefix(|r.body|) + r.body + rest
                            && pool.conns == Pushed(Popped(old(pool.conns), key), key, fd.value)
    ensures r.Success? <==> fd.Some? && Passes(sends) >= |frame.value| && IsReceived(inbox, receives, parses)
    ensures r.Success? ==> r.body == BodyOf(inbox)
    ensures r.Failure? && fd.Some? ==> pool.conns == Popped(old(pool.conns), key)
                                           && pool.closed == old(pool.closed) + [fd.value]
    ensures r.Stuck? ==> fd.Some? && fd.value !in Pooled(pool.conns) && pool.closed == old(pool.closed)
    ensures fd.Some? ==> sent <= frame.value
  {
    hide Tidy, Pooled, Popped, Pushed, Passes, IsReceived, BodyOf;
    r, fd, sent, rest := Failure, None, [], inbox;
    if frame.None? || !resolved { return; }
    fd := pool.GetConnection(key, connect);
    if fd.None? { return; }
    var outcome;
    ghost var used;
    outcome, sent, used := SendAll(frame.value, sends);
    if outcome.Pending? { return Stuck, fd, sent, rest; }
    if outcome.Failed? {
      pool.Close(fd.value);
      return Failure, fd, sent, rest;
    }
    var got;
    got, rest := RecvResponse(inbox, receives, parses);
    match got
    case Message(body) =>
      r := Success(body);
      pool.ReturnConnection(key, fd.value);
    case Broken =>
      pool.Close(fd.value);
    case _ =>
      r := Stuck;
  }

  function Last(fds: seq<Fd>): Fd
    requires fds != []
  {
    fds[|fds| - 1]
  }

  /** A length field is the only encoding of its length. */
  lemma PrefixOfLength(p: bytes)
    requires |p| == 4
    ensures Prefix(Length(p)) == p
  {
    var n := Length(p);
    var b0: int, b1: int, b2: int, b3: int := p[0], p[1], p[2], p[3];
    assert n / 0x100 == b1 + 0x100 * b2 + 0x1_0000 * b3;
    assert n / 0x1_0000 == b2 + 0x100 * b3;
    assert n / 0x100_0000 == b3;
  }

  /** What the provider sends as one response is a whole one, with its body. */
  lemma ResponseIsWhole(body: bytes, more: bytes)
    requires |body| < MAX_RESPONSE
    ensures var inbox := RpcFraming.Response(RpcFraming.Reply(body)) + more;
            Whole(inbox) && BodyOf(inbox) == body
  {
    hide Prefix, Length;
    var inbox := Prefix(|body|) + body + more;
    LengthOfPrefix(|body|);
    assert inbox[..4] == Prefix(|body|) && inbox[4..4 + |body|] == body;
  }

  /** What the provider sends as one response is read back as that response and no byte more. */
  lemma ResponseReadBack(body: bytes, more: bytes, got: bytes, rest: bytes)
    requires |body| < MAX_RESPONSE && |got| < MAX_RESPONSE
    requires RpcFraming.Response(RpcFraming.Reply(body)) + more == Prefix(|got|) + got + rest
    ensures got == body && rest == more
  {
    hide Prefix, Length;
    var p, q := Prefix(|body|), Prefix(|got|);
    var stream := p + body + more;
    assert stream[..4] == p && stream[..4] == q;
    LengthOfPrefix(|body|);
    LengthOfPrefix(|got|);
    assert stream[4..4 + |body|] == body && stream[4..4 + |got|] == got;
    assert stream[4 + |body|..] == more && stream[4 + |got|..] == rest;
  }
}
