/** Request frames: a 4-byte header size, the header, the arguments.  The provider takes them off an
    input buffer that grows by pieces of any size. */
module RpcFraming {
  import opened Bytes
  import opened Chunks
  import opened Wrappers

  datatype Header = Header(service: bytes, methodName: bytes, argsSize: uint32)

  /** Serialising and parsing of a header. */
  datatype Codec = Codec(serialize: Header -> bytes, parse: bytes -> Option<Header>)

  ghost predicate Lawful(c: Codec) {
    forall h :: c.parse(c.serialize(h)) == Some(h)
  }

  datatype Request = Request(service: bytes, methodName: bytes, args: bytes)

  function HeaderOf(r: Request): Header {
    Header(r.service, r.methodName, Low32(|r.args|))
  }

  /** The frame the channel builds for a request. */
  function Frame(c: Codec, r: Request): bytes {
    var header := c.serialize(HeaderOf(r));
    Prefix(Low32(|header|)) + header + r.args
  }

  function Frames(c: Codec, rs: seq<Request>): bytes {
    if rs == [] then [] else Frame(c, rs[0]) + Frames(c, rs[1..])
  }

  /** The frame's size fits in 32 bits. */
  predicate Fits(c: Codec, r: Request) {
    4 + |c.serialize(HeaderOf(r))| + |r.args| < TWO32
  }

  /** `args` is absent when the request message cannot be serialised. */
  method BuildRequestFrame(c: Codec, service: bytes, methodName: bytes, args: Option<bytes>)
    returns (out: Option<bytes>)
    ensures out == if args.Some? then Some(Frame(c, Request(service, methodName, args.value))) else None
    ensures args.Some? ==>
              var header := c.serialize(Header(service, methodName, Low32(|args.value|)));
              out.value == Prefix(Low32(|header|)) + header + args.value
  {
    if args.None? { return None; }
    var header := c.serialize(Header(service, methodName, Low32(|args.value|)));
    var frame := Prefix(Low32(|header|));
    frame := frame + header;
    frame := frame + args.value;
    out := Some(frame);
  }

  // ---- Taking one frame off the buffer ----

  /** `Wait` for more bytes, `Skip` a frame whose header does not parse, take a frame, or meet a size
      that 32 bits cannot hold, where the model stops. */
  datatype Look = Wait | Skip(size: nat) | Take(request: Request, size: nat) | Overflow

  function Peel(c: Codec, b: bytes): (look: Look)
    ensures look.Skip? || look.Take? ==> 4 <= look.size <= |b|
  {
    if |b| < 4 then Wait
    else
      var headerSize := Length(b[..4]);
      if 4 + headerSize >= TWO32 then Overflow
      else if |b| < 4 + headerSize then Wait
      else
        var header := c.parse(b[4..4 + headerSize]);
        if header.None? then Skip(4 + headerSize)
        else
          var total := 4 + headerSize + header.value.argsSize;
          if total >= TWO32 then Overflow
          else if |b| < total then Wait
          else Take(Request(header.value.service, header.value.methodName, b[4 + headerSize..total]), total)
  }

  datatype Drained = Drained(requests: seq<Request>, rest: bytes, overflow: bool)

  /** The requests of a buffer, and what is left of it. */
  function Drain(c: Codec, b: bytes): Drained
    decreases |b|
  {
    match Peel(c, b)
    case Wait => Drained([], b, false)
    case Overflow => Drained([], b, true)
    case Skip(size) => Drain(c, b[size..])
    case Take(r, size) => After([r], Drain(c, b[size..]))
  }

  function After(earlier: seq<Request>, d: Drained): Drained {
    d.(requests := earlier + d.requests)
  }

  /** One turn of the loop. */
  lemma DrainStep(c: Codec, earlier: seq<Request>, b: bytes)
    ensures var look := Peel(c, b);
            After(earlier, Drain(c, b))
            == if look.Wait? then Drained(earlier, b, false)
               else if look.Overflow? then Drained(earlier, b, true)
               else if look.Skip? then After(earlier, Drain(c, b[look.size..]))
               else After(earlier + [look.request], Drain(c, b[look.size..]))
  {
    hide Peel;
    var look := Peel(c, b);
    if look.Take? {
      var later := Drain(c, b[look.size..]).requests;
      assert earlier + ([look.request] + later) == (earlier + [look.request]) + later;
    }
  }

  // ---- What the provider does with a request ----

  /** The service or method may be unknown, the arguments may not parse, the response may not serialise. */
  datatype Answer = Unknown | BadArguments | Unserializable | Reply(body: bytes)

  type Registry = map<bytes, map<bytes, bytes -> Answer>>

  function Answered(services: Registry, r: Request): Answer {
    if r.service !in services then Unknown
    else if r.methodName !in services[r.service] then Unknown
    else services[r.service][r.methodName](r.args)
  }

  /** The bytes of one response; nothing at all when there is none. */
  function Response(a: Answer): bytes {
    if a.Reply? then Prefix(Low32(|a.body|)) + a.body else []
  }

  function Responses(services: Registry, rs: seq<Request>): bytes {
    if |rs| == 0 then []
    else Responses(services, rs[..|rs| - 1]) + Response(Answered(services, rs[|rs| - 1]))
  }

  lemma DrainStart(c: Codec, b: bytes)
    ensures After([], Drain(c, b)) == Drain(c, b)
  {
    hide Drain;
  }

  lemma ResponsesNone(services: Registry)
    ensures Responses(services, []) == []
  {
  }

  lemma ResponsesNext(services: Registry, rs: seq<Request>, r: Request)
    ensures Responses(services, rs + [r]) == Responses(services, rs) + Response(Answered(services, r))
  {
    hide Response, Answered;
    assert (rs + [r])[..|rs|] == rs;
  }

  /** The output of several turns is the output for all their requests. */
  lemma {:induction false} ResponsesAppend(services: Registry, rs: seq<Request>, more: seq<Request>)
    ensures Responses(services, rs + more) == Responses(services, rs) + Responses(services, more)
    decreases |more|
  {
    hide Response, Answered, Responses;
    var first := Responses(services, rs);
    if |more| == 0 {
      ResponsesNone(services);
      assert rs + more == rs && first + [] == first;
    } else {
      var front, last := more[..|more| - 1], more[|more| - 1];
      ResponsesAppend(services, rs, front);
      ResponsesNext(services, rs + front, last);
      ResponsesNext(services, front, last);
      assert rs + more == (rs + front) + [last] && more == front + [last];
      var middle, end := Responses(services, front), Response(Answered(services, last));
      assert (first + middle) + end == first + (middle + end);
    }
  }

  /** A connection of the provider. */
  class Connection {
    const codec: Codec
    const services: Registry
    var buffer: bytes
    var output: bytes
    /** The frames taken so far. */
    ghost var taken: seq<Request>

    constructor (c: Codec, s: Registry)
      ensures codec == c && services == s && buffer == [] && output == [] && taken == []
    {
      codec, services, buffer, output, taken := c, s, [], [], [];
    }

    method SendRpcResponse(a: Answer)
      modifies this`output
      ensures output == old(output) + Response(a)
    {
      if a.Reply? {
        output := output + Prefix(Low32(|a.body|));
        output := output + a.body;
      }
    }

    /** Called with the buffer that the new bytes have been added to. */
    method OnMessage() returns (overflow: bool)
      modifies this
      ensures var d := Drain(codec, old(buffer));
              && taken == old(taken) + d.requests && buffer == d.rest && overflow == d.overflow
              && output == old(output) + Responses(services, d.requests)
    {
      hide Peel, Response, Answered, Responses, Drain, After;
      DrainStart(codec, buffer);
      ResponsesNone(services);
      ghost var requests: seq<Request> := [];
      overflow := false;
      while true
        invariant Drain(codec, old(buffer)) == After(requests, Drain(codec, buffer))
        invariant taken == old(taken) + requests && !overflow
        invariant output == old(output) + Responses(services, requests)
        decreases |buffer|
      {
        var look := Peel(codec, buffer);
        DrainStep(codec, requests, buffer);
        if look.Wait? { break; }
        if look.Overflow? { overflow := true; break; }
        buffer := buffer[look.size..];
        if look.Skip? { continue; }
        ResponsesNext(services, requests, look.request);
        requests := requests + [look.request];
        taken := taken + [look.request];
        SendRpcResponse(Answered(services, look.request));
      }
    }
  }

  // ---- Chunking ----

  /** More bytes do not change a frame that is already there. */
  lemma PeelGrows(c: Codec, a: bytes, b: bytes)
    requires !Peel(c, a).Wait?
    ensures Peel(c, a + b) == Peel(c, a)
  {
    assert (a + b)[..4] == a[..4];
    var headerSize := Length(a[..4]);
    if 4 + headerSize < TWO32 {
      assert (a + b)[4..4 + headerSize] == a[4..4 + headerSize];
      var header := c.parse(a[4..4 + headerSize]);
      if header.Some? && 4 + headerSize + header.value.argsSize < TWO32 {
        var total := 4 + headerSize + header.value.argsSize;
        assert (a + b)[4 + headerSize..total] == a[4 + headerSize..total];
      }
    }
  }

  /** Bytes that follow are drained from what the bytes before them left. */
  lemma {:induction false} DrainSplit(c: Codec, a: bytes, b: bytes)
    ensures var d := Drain(c, a);
            Drain(c, a + b) == if d.overflow then Drained(d.requests, d.rest + b, true)
                               else After(d.requests, Drain(c, d.rest + b))
    decreases |a|
  {
    hide Peel;
    var look := Peel(c, a);
    if !look.Wait? {
      PeelGrows(c, a, b);
      if look.Skip? || look.Take? {
        assert (a + b)[look.size..] == a[look.size..] + b;
        DrainSplit(c, a[look.size..], b);
      }
    }
  }

  /** The connection after the chunks arrived one by one; after an overflow it only collects bytes. */
  function Received(c: Codec, chunks: seq<bytes>): Drained {
    if |chunks| == 0 then Drained([], [], false)
    else
      var d, chunk := Received(c, chunks[..|chunks| - 1]), chunks[|chunks| - 1];
      if d.overflow then d.(rest := d.rest + chunk) else After(d.requests, Drain(c, d.rest + chunk))
  }

  /** However the stream is cut, the same requests come out and the same bytes are left. */
  lemma {:induction false} ChunksDoNotMatter(c: Codec, chunks: seq<bytes>)
    ensures Received(c, chunks) == Drain(c, Joined(chunks))
  {
    if |chunks| > 0 {
      hide Drain;
      ChunksDoNotMatter(c, chunks[..|chunks| - 1]);
      DrainSplit(c, Joined(chunks[..|chunks| - 1]), chunks[|chunks| - 1]);
    } else {
      hide Joined;
      assert Joined(chunks) == [] by { JoinedNone<byte>(); }
    }
  }

  // ---- The two together ----

  lemma PeelFrame(c: Codec, r: Request, more: bytes)
    requires Lawful(c) && Fits(c, r)
    ensures Peel(c, Frame(c, r) + more) == Take(r, |Frame(c, r)|)
  {
    hide Prefix, Length;
    var header := c.serialize(HeaderOf(r));
    var b := Frame(c, r) + more;
    LengthOfPrefix(|header|);
    assert Low32(|header|) == |header| && Low32(|r.args|) == |r.args|;
    assert b[..4] == Prefix(|header|);
    assert b[4..4 + |header|] == header;
    assert b[4 + |header|..4 + |header| + |r.args|] == r.args;
  }

  lemma AfterAfter(x: seq<Request>, y: seq<Request>, d: Drained)
    ensures After(x, After(y, d)) == After(x + y, d)
  {
    assert x + (y + d.requests) == (x + y) + d.requests;
  }

  lemma {:induction false} DrainFrames(c: Codec, rs: seq<Request>, more: bytes)
    requires Lawful(c) && forall r :: r in rs ==> Fits(c, r)
    ensures Drain(c, Frames(c, rs) + more) == After(rs, Drain(c, more))
  {
    hide Frame, Peel, Fits, Lawful, Drain, After;
    if rs == [] {
      assert Frames(c, rs) + more == more;
      DrainStart(c, more);
    } else {
      var first, rest := Frame(c, rs[0]), Frames(c, rs[1..]) + more;
      assert Frames(c, rs) + more == first + rest;
      PeelFrame(c, rs[0], rest);
      assert (first + rest)[|first|..] == rest;
      DrainFrames(c, rs[1..], more);
      DrainStep(c, [], first + rest);
      DrainStart(c, first + rest);
      assert [] + [rs[0]] == [rs[0]];
      AfterAfter([rs[0]], rs[1..], Drain(c, more));
      assert rs == [rs[0]] + rs[1..];
    }
  }

  /** Requests sent one after the other and cut anywhere arrive as they were sent, in order, with
      nothing left over. */
  lemma RequestsArrive(c: Codec, rs: seq<Request>, chunks: seq<bytes>)
    requires Lawful(c) && forall r :: r in rs ==> Fits(c, r)
    requires Joined(chunks) == Frames(c, rs)
    ensures Received(c, chunks) == Drained(rs, [], false)
  {
    hide Frame, Frames, Fits, Lawful, Joined, Received;
    ChunksDoNotMatter(c, chunks);
    DrainFrames(c, rs, []);
    assert Frames(c, rs) + [] == Frames(c, rs);
    assert After(rs, Drain(c, [])).requests == rs + [];
  }

  /** While they are still under way, the requests that came out are the first of those sent. */
  lemma RequestsArriveInOrder(c: Codec, rs: seq<Request>, chunks: seq<bytes>)
    requires Lawful(c) && forall r :: r in rs ==> Fits(c, r)
    requires Joined(chunks) <= Frames(c, rs)
    ensures Received(c, chunks).requests <= rs && !Received(c, chunks).overflow
  {
    hide Frame, Frames, Fits, Lawful, Joined, Received, Drain;
    var arrived, all := Joined(chunks), Frames(c, rs);
    ChunksDoNotMatter(c, chunks);
    DrainSplit(c, arrived, all[|arrived|..]);
    assert arrived + all[|arrived|..] == all;
    DrainFrames(c, rs, []);
    DrainNothing(c);
    assert all + [] == all;
    assert Drain(c, all) == Drained(rs, [], false);
  }

  lemma DrainNothing(c: Codec)
    ensures Drain(c, []) == Drained([], [], false)
  {
  }

  /** A frame whose header does not parse is dropped by its header size alone: its arguments are read
      as the start of the next frame. */
  lemma UnparsableHeader(c: Codec, header: bytes, more: bytes)
    requires 4 + |header| < TWO32 && c.parse(header).None?
    ensures Drain(c, Prefix(|header|) + header + more) == Drain(c, more)
  {
    hide Prefix, Length;
    var b := Prefix(|header|) + header + more;
    LengthOfPrefix(|header|);
    assert b[..4] == Prefix(|header|);
    assert b[4..4 + |header|] == header;
    assert b[4 + |header|..] == more;
  }

  // ---- What the client gets for its frames ----

  /** A frame for a registered method whose implementation replies is answered by the length of the reply and
      the reply: the implementation was given the arguments sent. */
  lemma RegisteredAnswered(c: Codec, services: Registry, service: bytes, methodName: bytes, f: bytes -> Answer,
                           args: bytes, body: bytes)
    requires Lawful(c) && Fits(c, Request(service, methodName, args)) && |body| < TWO32
    requires service in services && methodName in services[service] && services[service][methodName] == f
    requires f(args) == Reply(body)
    ensures var d := Drain(c, Frame(c, Request(service, methodName, args)));
            d.rest == [] && Responses(services, d.requests) == Prefix(|body|) + body
  {
    hide Frame, Fits, Lawful, Drain, Responses;
    var r := Request(service, methodName, args);
    FrameDrained(c, r);
    ResponsesNone(services);
    ResponsesNext(services, [], r);
    assert [] + [r] == [r] && [] + (Prefix(|body|) + body) == Prefix(|body|) + body;
  }

  /** A frame for a service or a method that is not registered is answered by nothing. */
  lemma UnregisteredSilent(c: Codec, services: Registry, r: Request)
    requires Lawful(c) && Fits(c, r)
    requires r.service !in services || r.methodName !in services[r.service]
    ensures var d := Drain(c, Frame(c, r));
            d.rest == [] && Responses(services, d.requests) == []
  {
    hide Frame, Fits, Lawful, Drain, Responses;
    FrameDrained(c, r);
    ResponsesNone(services);
    ResponsesNext(services, [], r);
    assert [] + [r] == [r];
  }

  lemma FrameDrained(c: Codec, r: Request)
    requires Lawful(c) && Fits(c, r)
    ensures Drain(c, Frame(c, r)) == Drained([r], [], false)
  {
    hide Frame, Fits, Lawful, Drain;
    DrainFrames(c, [r], []);
    DrainNothing(c);
    assert Frames(c, [r]) == Frame(c, r) by { assert [r][1..] == []; }
    assert Frames(c, [r]) + [] == Frame(c, r);
  }

  /** The bytes that a request is answered by: the reply of its implementation to its arguments, with the
      length before it, and nothing when there is no implementation or it gives no reply. */
  ghost predicate IsReply(services: Registry, r: Request, out: bytes) {
    if r.service in services && r.methodName in services[r.service] then
      var a := services[r.service][r.methodName](r.args);
      out == if a.Reply? then Prefix(Low32(|a.body|)) + a.body else []
    else out == []
  }

  lemma {:induction false} RepliesJoined(services: Registry, rs: seq<Request>, outs: seq<bytes>)
    requires |outs| == |rs| && forall i :: 0 <= i < |rs| ==> IsReply(services, rs[i], outs[i])
    ensures Responses(services, rs) == Joined(outs)
  {
    hide Responses, Joined, IsReply, Answered, Response;
    if |rs| > 0 {
      var front, last := rs[..|rs| - 1], rs[|rs| - 1];
      RepliesJoined(services, front, outs[..|rs| - 1]);
      ResponsesNext(services, front, last);
      assert rs == front + [last];
      JoinedNext(outs, |rs| - 1);
      assert outs[..|rs|] == outs;
      ReplyIsResponse(services, last, outs[|rs| - 1]);
    } else {
      JoinedNone<byte>();
      ResponsesNone(services);
    }
  }

  lemma ReplyIsResponse(services: Registry, r: Request, out: bytes)
    requires IsReply(services, r, out)
    ensures out == Response(Answered(services, r))
  {
  }

  lemma ReceivedNext(c: Codec, chunks: seq<bytes>, n: nat)
    requires n < |chunks|
    ensures var d, chunk := Received(c, chunks[..n]), chunks[n];
            Received(c, chunks[..n + 1])
            == if d.overflow then d.(rest := d.rest + chunk) else After(d.requests, Drain(c, d.rest + chunk))
  {
    hide Drain;
    assert chunks[..n + 1][..n] == chunks[..n];
  }

  /** A new connection whose chunks come in one after the other: each is added to the buffer, and the frame
      loop runs.  What it sends are the responses to the requests that came out, in order. */
  method Serve(c: Codec, services: Registry, chunks: seq<bytes>) returns (conn: Connection, overflow: bool)
    ensures fresh(conn) && var d := Received(c, chunks);
            && conn.output == Responses(services, d.requests) && conn.taken == d.requests
            && conn.buffer == d.rest && overflow == d.overflow
  {
    hide Responses, Drain, Received;
    conn := new Connection(c, services);
    overflow := false;
    ResponsesNone(services);
    NothingReceived(c);
    for i := 0 to |chunks|
      invariant conn.codec == c && conn.services == services
      invariant var d := Received(c, chunks[..i]);
                && conn.output == Responses(services, d.requests) && conn.taken == d.requests
                && conn.buffer == d.rest && overflow == d.overflow
    {
      ghost var before := conn.taken;
      ReceivedNext(c, chunks, i);
      conn.buffer := conn.buffer + chunks[i];
      if !overflow {
        ResponsesAppend(services, before, Drain(c, conn.buffer).requests);
        overflow := conn.OnMessage();
      }
    }
    assert chunks[..|chunks|] == chunks;
  }

  lemma NothingReceived(c: Codec)
    ensures Received(c, []) == Drained([], [], false)
  {
  }

  /** Frames sent one after the other and cut anywhere are answered by the replies to their requests, in
      order, and nothing is left over. */
  lemma FramesAnswered(c: Codec, services: Registry, rs: seq<Request>, outs: seq<bytes>, chunks: seq<bytes>)
    requires Lawful(c) && forall r :: r in rs ==> Fits(c, r)
    requires Joined(chunks) == Frames(c, rs)
    requires |outs| == |rs| && forall i :: 0 <= i < |rs| ==> IsReply(services, rs[i], outs[i])
    ensures var d := Received(c, chunks);
            Responses(services, d.requests) == Joined(outs) && d.rest == [] && !d.overflow
  {
    hide Frames, Fits, Lawful, Joined, Received, Responses, IsReply;
    RequestsArrive(c, rs, chunks);
    RepliesJoined(services, rs, outs);
  }
}
