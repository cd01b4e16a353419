/** Loops around `send` and `recv`: calls that move some of the data, ask to be repeated, or fail. */
module Sockets {
  /** What one call of `send` or `recv` does: it can move up to `most` bytes, asks to be repeated
      (EINTR, EAGAIN, EWOULDBLOCK), or fails. */
  datatype Io = Moves(most: nat) | Retry | Error

  /** `Pending` when the loop is still waiting after all the calls given. */
  datatype Outcome = Done | Failed | Pending

  function Min(a: nat, b: nat): nat {
    if a <= b then a else b
  }

  /** The bytes that a list of calls can move at most. */
  function Room(calls: seq<Io>): nat {
    if |calls| == 0 then 0
    else Room(calls[..|calls| - 1]) + if calls[|calls| - 1].Moves? then calls[|calls| - 1].most else 0
  }

  /** A call that ends the loop with an error: it fails, or moves nothing. */
  predicate Fatal(call: Io) {
    call.Error? || call == Moves(0)
  }

  /** How many bytes the calls before the first fatal one can move. */
  function Passes(calls: seq<Io>): nat {
    if calls == [] || Fatal(calls[0]) then 0
    else Passes(calls[1..]) + if calls[0].Moves? then calls[0].most else 0
  }

  lemma PassesStep(calls: seq<Io>, i: nat)
    requires i <= |calls|
    ensures i == |calls| ==> Passes(calls[i..]) == 0
    ensures i < |calls| && Fatal(calls[i]) ==> Passes(calls[i..]) == 0
    ensures i < |calls| && !Fatal(calls[i]) ==>
              Passes(calls[i..]) == Passes(calls[i + 1..]) + if calls[i].Moves? then calls[i].most else 0
  {
    if i < |calls| {
      assert calls[i..][1..] == calls[i + 1..];
    }
  }

  /** The calls that are left when `n` bytes have been moved. */
  function Left(calls: seq<Io>, n: nat): seq<Io> {
    if n == 0 || calls == [] then calls
    else Left(calls[1..], if calls[0].Moves? then n - Min(calls[0].most, n) else n)
  }

  lemma NextCall(calls: seq<Io>, n: nat)
    ensures n == 0 ==> Left(calls, n) == calls
    ensures calls == [] || Fatal(calls[0]) ==> Passes(calls) == 0
    ensures calls != [] && !Fatal(calls[0]) ==>
              Passes(calls) == Passes(calls[1..]) + if calls[0].Moves? then calls[0].most else 0
    ensures calls != [] && n > 0 ==>
              Left(calls, n) == Left(calls[1..], if calls[0].Moves? then n - Min(calls[0].most, n) else n)
  {
  }

  /** Sends a buffer whole or fails; `used` is how many calls it took. */
  method SendAll<T>(data: seq<T>, calls: seq<Io>) returns (outcome: Outcome, sent: seq<T>, ghost used: nat)
    ensures sent == data[..Min(Passes(calls), |data|)] && (outcome.Done? <==> Passes(calls) >= |data|)
    ensures used <= |calls| && sent == data[..Min(Room(calls[..used]), |data|)]
    ensures outcome.Done? <==> sent == data
    ensures outcome.Failed? ==> used > 0 && Fatal(calls[used - 1])
    ensures outcome.Pending? ==> used == |calls|
    ensures forall i :: 0 <= i < used && !(outcome.Failed? && i == used - 1) ==> !Fatal(calls[i])
  {
    sent, used := [], 0;
    var i := 0;
    assert calls[0..] == calls;
    while |sent| < |data|
      invariant used == i <= |calls| && sent == data[..Min(Room(calls[..i]), |data|)]
      invariant forall j :: 0 <= j < i ==> !Fatal(calls[j])
      invariant Passes(calls) == Room(calls[..i]) + Passes(calls[i..])
      decreases |calls| - i
    {
      PassesStep(calls, i);
      if i == |calls| { return Pending, sent, used; }
      var call := calls[i];
      i, used := i + 1, used + 1;
      assert calls[..i] == calls[..i - 1] + [call];
      if call.Moves? && call.most > 0 {
        var n := Min(call.most, |data| - |sent|);
        sent := sent + data[|sent|..|sent| + n];
        continue;
      }
      if call.Retry? { continue; }
      return Failed, sent, used;
    }
    outcome := Done;
  }

  /** The inner loop of receiving: fills a buffer of `want` bytes from what the peer sends.  A peer that
      sends no more has closed. */
  method Fill<T>(inbox: seq<T>, want: nat, calls: seq<Io>)
    returns (outcome: Outcome, got: seq<T>, rest: seq<T>, later: seq<Io>)
    ensures inbox == got + rest && |got| <= want && (outcome.Done? <==> |got| == want)
    ensures |got| == Min(Min(Passes(calls), want), |inbox|) && (outcome.Done? ==> later == Left(calls, want))
    ensures outcome.Done? && want > 0 ==> |later| < |calls|
    ensures outcome.Pending? ==> later == []
    ensures outcome.Failed? ==> rest == [] || exists call :: call in calls && Fatal(call)
  {
    hide Left, Passes, Room;
    got, rest, later := [], inbox, calls;
    while |got| < want
      invariant inbox == got + rest && |got| <= want && |later| <= |calls| && (got != [] ==> |later| < |calls|)
      invariant forall call :: call in later ==> call in calls
      invariant if |got| < want && rest != [] then Passes(calls) == |got| + Passes(later) else Passes(calls) >= |got|
      invariant Left(calls, want) == Left(later, want - |got|) || (rest == [] && |got| < want)
      decreases |later|
    {
      NextCall(later, want - |got|);
      if later == [] { return Pending, got, rest, later; }
      var call := later[0];
      assert call in calls;
      later := later[1..];
      if call.Moves? && call.most > 0 && rest != [] {
        var n := Min(Min(call.most, want - |got|), |rest|);
        got, rest := got + rest[..n], rest[n..];
        continue;
      }
      if call.Retry? { continue; }
      return Failed, got, rest, later;
    }
    NextCall(later, 0);
    outcome := Done;
  }
}
