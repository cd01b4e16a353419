/** The offline message table and the two calls over it.  Publishing, the SQL server and protobuf are
    foreign: whether each succeeds is an argument, and serialising is a pair of functions. */
module OfflineMessages {
  import opened Base64
  import opened Bytes
  import opened Wrappers

  datatype C2CMsg = C2CMsg(msgId: int, from: int, to: int, tsMs: int, text: string)

  const BLANK := C2CMsg(0, 0, 0, 0, "")

  /** Serialising and parsing of one message. */
  datatype Wire = Wire(serialize: C2CMsg -> bytes, parse: bytes -> Option<C2CMsg>)

  ghost predicate Lawful(w: Wire) {
    forall m :: w.parse(w.serialize(m)) == Some(m)
  }

  /** A row of the table: a direct message, in Base64, or a group message, as it came. */
  datatype Row = Direct(uid: int, text: string) | Group(payload: bytes)

  predicate DirectTo(r: Row, u: int) {
    r.Direct? && r.uid == u
  }

  // ---- The statements ----

  function SelectDirect(rows: seq<Row>, u: int): seq<string> {
    if rows == [] then []
    else if DirectTo(rows[0], u) then [rows[0].text] + SelectDirect(rows[1..], u) else SelectDirect(rows[1..], u)
  }

  function DeleteDirect(rows: seq<Row>, u: int): seq<Row> {
    if rows == [] then []
    else if DirectTo(rows[0], u) then DeleteDirect(rows[1..], u) else [rows[0]] + DeleteDirect(rows[1..], u)
  }

  function SelectGroup(rows: seq<Row>): seq<bytes> {
    if rows == [] then []
    else if rows[0].Group? then [rows[0].payload] + SelectGroup(rows[1..]) else SelectGroup(rows[1..])
  }

  function DeleteGroup(rows: seq<Row>): seq<Row> {
    if rows == [] then []
    else if rows[0].Group? then DeleteGroup(rows[1..]) else [rows[0]] + DeleteGroup(rows[1..])
  }

  function DecodedAll(texts: seq<string>): seq<bytes> {
    if texts == [] then [] else [Decoded(texts[0])] + DecodedAll(texts[1..])
  }

  /** The payloads waiting for `u`, oldest first. */
  function Waiting(rows: seq<Row>, u: int): seq<bytes> {
    DecodedAll(SelectDirect(rows, u))
  }

  lemma {:induction false} DecodedAppend(texts: seq<string>, text: string)
    ensures DecodedAll(texts + [text]) == DecodedAll(texts) + [Decoded(text)]
  {
    hide Decoded;
    if texts != [] {
      assert (texts + [text])[1..] == texts[1..] + [text];
      DecodedAppend(texts[1..], text);
    } else {
      assert [text][1..] == [];
    }
  }

  lemma {:induction false} SelectAppend(rows: seq<Row>, r: Row, u: int)
    ensures SelectDirect(rows + [r], u)
            == if DirectTo(r, u) then SelectDirect(rows, u) + [r.text] else SelectDirect(rows, u)
  {
    if rows != [] {
      assert (rows + [r])[1..] == rows[1..] + [r];
      SelectAppend(rows[1..], r, u);
    } else {
      assert [r][1..] == [];
    }
  }

  lemma {:induction false} SelectAfterDelete(rows: seq<Row>, v: int, u: int)
    ensures SelectDirect(DeleteDirect(rows, v), u) == if u == v then [] else SelectDirect(rows, u)
  {
    if rows != [] {
      SelectAfterDelete(rows[1..], v, u);
    }
  }

  lemma {:induction false} SelectAfterGroupDelete(rows: seq<Row>, u: int)
    ensures SelectDirect(DeleteGroup(rows), u) == SelectDirect(rows, u)
  {
    if rows != [] {
      SelectAfterGroupDelete(rows[1..], u);
    }
  }

  /** A stored payload waits behind the others of its receiver, byte for byte. */
  lemma WaitingAfterInsert(rows: seq<Row>, to: int, payload: bytes, u: int)
    ensures Waiting(rows + [Direct(to, Encoded(payload))], u)
            == if to == u then Waiting(rows, u) + [payload] else Waiting(rows, u)
  {
    hide Encoded, Decoded;
    SelectAppend(rows, Direct(to, Encoded(payload)), u);
    DecodedAppend(SelectDirect(rows, u), Encoded(payload));
    RoundTrip(payload);
  }

  /** A deletion under an identifier empties what waits for it and touches nothing else. */
  lemma DeletedWaiting(rows: seq<Row>, v: int)
    ensures Waiting(DeleteDirect(rows, v), v) == []
    ensures forall u :: u != v ==> Waiting(DeleteDirect(rows, v), u) == Waiting(rows, u)
    ensures SelectGroup(DeleteDirect(rows, v)) == SelectGroup(rows)
  {
    hide SelectDirect, DeleteDirect, SelectGroup;
    forall u ensures SelectDirect(DeleteDirect(rows, v), u) == if u == v then [] else SelectDirect(rows, u) {
      SelectAfterDelete(rows, v, u);
    }
    GroupsAfterDelete(rows, v);
  }

  lemma {:induction false} GroupsAfterDelete(rows: seq<Row>, v: int)
    ensures SelectGroup(DeleteDirect(rows, v)) == SelectGroup(rows)
  {
    if rows != [] {
      GroupsAfterDelete(rows[1..], v);
    }
  }

  /** A group row waits behind the other group rows and for nobody else. */
  lemma GroupInserted(rows: seq<Row>, payload: bytes)
    ensures SelectGroup(rows + [Group(payload)]) == SelectGroup(rows) + [payload]
    ensures forall u :: Waiting(rows + [Group(payload)], u) == Waiting(rows, u)
  {
    hide SelectDirect, SelectGroup;
    forall u ensures SelectDirect(rows + [Group(payload)], u) == SelectDirect(rows, u) {
      SelectAppend(rows, Group(payload), u);
    }
    GroupsAppend(rows, Group(payload));
  }

  lemma {:induction false} GroupsAppend(rows: seq<Row>, r: Row)
    ensures SelectGroup(rows + [r]) == if r.Group? then SelectGroup(rows) + [r.payload] else SelectGroup(rows)
  {
    if rows == [] {
      assert [r][1..] == [];
    } else {
      assert (rows + [r])[1..] == rows[1..] + [r];
      GroupsAppend(rows[1..], r);
    }
  }

  lemma GroupsDeleted(rows: seq<Row>)
    ensures SelectGroup(DeleteGroup(rows)) == []
    ensures forall u :: Waiting(DeleteGroup(rows), u) == Waiting(rows, u)
  {
    hide SelectDirect, SelectGroup, DeleteGroup;
    forall u ensures SelectDirect(DeleteGroup(rows), u) == SelectDirect(rows, u) {
      SelectAfterGroupDelete(rows, u);
    }
    NoGroups(rows);
  }

  lemma {:induction false} NoGroups(rows: seq<Row>)
    ensures SelectGroup(DeleteGroup(rows)) == []
  {
    if rows != [] {
      NoGroups(rows[1..]);
    }
  }

  class OfflineModel {
    var rows: seq<Row>

    constructor ()
      ensures rows == []
    {
      rows := [];
    }

    method Insert(uid: int, payload: bytes, ok: bool) returns (done: bool)
      modifies this
      ensures done == ok && rows == if ok then old(rows) + [Direct(uid, Encoded(payload))] else old(rows)
    {
      var text := Encode(payload);
      done := ok;
      if ok { rows := rows + [Direct(uid, text)]; }
    }

    method Query(uid: int, ok: bool) returns (out: seq<bytes>)
      ensures out == if ok then Waiting(rows, Wrap(uid)) else []
    {
      hide Encoded, Decoded, Wrap, SelectDirect;
      out := [];
      if !ok { return; }
      var res := SelectDirect(rows, Wrap(uid));
      for i := 0 to |res|
        invariant out == DecodedAll(res[..i])
      {
        var payload := Decode(res[i]);
        DecodedAppend(res[..i], res[i]);
        assert res[..i + 1] == res[..i] + [res[i]];
        out := out + [payload];
      }
      assert res[..|res|] == res;
    }

    method Remove(uid: int, ok: bool) returns (done: bool)
      modifies this
      ensures done == ok && rows == if ok then DeleteDirect(old(rows), Wrap(uid)) else old(rows)
      ensures ok ==> Waiting(rows, Wrap(uid)) == []
      ensures forall u :: u != Wrap(uid) ==> Waiting(rows, u) == Waiting(old(rows), u)
      ensures SelectGroup(rows) == SelectGroup(old(rows))
    {
      hide Wrap, SelectGroup, SelectDirect, DeleteDirect, DecodedAll;
      done := ok;
      if ok {
        DeletedWaiting(rows, Wrap(uid));
        rows := DeleteDirect(rows, Wrap(uid));
      }
    }

    /** The group's identifier is not stored. */
    method InsertGroupMessage(payload: bytes, ok: bool) returns (done: bool)
      modifies this
      ensures done == ok && rows == if ok then old(rows) + [Group(payload)] else old(rows)
      ensures ok ==> SelectGroup(rows) == SelectGroup(old(rows)) + [payload]
      ensures forall u :: Waiting(rows, u) == Waiting(old(rows), u)
    {
      hide SelectGroup, SelectDirect, DecodedAll;
      done := ok;
      if ok {
        GroupInserted(rows, payload);
        rows := rows + [Group(payload)];
      }
    }

    method QueryGroupMessages(ok: bool) returns (out: seq<bytes>)
      ensures out == if ok then SelectGroup(rows) else []
    {
      out := [];
      if ok {
        var res := SelectGroup(rows);
        for i := 0 to |res|
          invariant out == res[..i]
        {
          out := out + [res[i]];
        }
      }
    }

    method RemoveGroupMessages(ok: bool) returns (done: bool)
      modifies this
      ensures done == ok && rows == if ok then DeleteGroup(old(rows)) else old(rows)
      ensures ok ==> SelectGroup(rows) == []
      ensures forall u :: Waiting(rows, u) == Waiting(old(rows), u)
    {
      hide SelectGroup, SelectDirect, DeleteGroup, DecodedAll;
      done := ok;
      if ok {
        GroupsDeleted(rows);
        rows := DeleteGroup(rows);
      }
    }
  }

  // ---- The calls ----

  /** One call, with the outcomes of what it asks of others: whether Presence gives a route and delivers,
      and which statements succeed. */
  datatype Event =
    | Send(m: C2CMsg, route: bool, deliver: bool, insert: bool)
    | PullOffline(uid: int, select: bool, selectGroup: bool, delete: bool, deleteGroup: bool)
    | SendGroup(payload: bytes, insert: bool)

  predicate Published(e: Event) {
    e.Send? && e.route && e.deliver
  }

  predicate Stored(e: Event) {
    e.Send? && !Published(e) && e.insert
  }

  function After(w: Wire, rows: seq<Row>, e: Event): seq<Row> {
    match e
    case Send(m, _, _, _) => if Stored(e) then rows + [Direct(m.to, Encoded(w.serialize(m)))] else rows
    case PullOffline(uid, _, _, delete, deleteGroup) =>
      var left := if delete then DeleteDirect(rows, Wrap(uid)) else rows;
      if deleteGroup then DeleteGroup(left) else left
    case SendGroup(payload, insert) => if insert then rows + [Group(payload)] else rows
  }

  /** The table, and the messages handed to Presence, oldest first. */
  datatype Service = Service(rows: seq<Row>, published: seq<C2CMsg>)

  function Next(w: Wire, s: Service, e: Event): Service {
    Service(After(w, s.rows, e), if Published(e) then s.published + [e.m] else s.published)
  }

  function Reply(e: Event): string
    requires e.Send?
  {
    if Published(e) then "delivered" else "queued"
  }

  /** The direct messages a call returns. */
  function Returned(rows: seq<Row>, e: Event): seq<bytes> {
    if e.PullOffline? && e.select then Waiting(rows, Wrap(e.uid)) else []
  }

  /** A payload that does not parse leaves the blank message already added to the list. */
  function Parsed(w: Wire, payload: bytes): C2CMsg {
    var m := w.parse(payload);
    if m.Some? then m.value else BLANK
  }

  function ParsedAll(w: Wire, payloads: seq<bytes>): seq<C2CMsg> {
    if payloads == [] then [] else [Parsed(w, payloads[0])] + ParsedAll(w, payloads[1..])
  }

  lemma {:induction false} ParsedAppend(w: Wire, payloads: seq<bytes>, payload: bytes)
    ensures ParsedAll(w, payloads + [payload]) == ParsedAll(w, payloads) + [Parsed(w, payload)]
  {
    hide Parsed;
    if payloads != [] {
      assert (payloads + [payload])[1..] == payloads[1..] + [payload];
      ParsedAppend(w, payloads[1..], payload);
    } else {
      assert [payload][1..] == [];
    }
  }

  class MessageServiceImpl {
    const wire: Wire
    const offline: OfflineModel
    /** The messages handed to Presence, oldest first. */
    var published: seq<C2CMsg>
    var nextId: int

    function Value(): Service
      reads this, offline
    {
      Service(offline.rows, published)
    }

    constructor (w: Wire)
      ensures wire == w && fresh(offline) && Value() == Service([], []) && nextId == 1
    {
      wire := w;
      offline := new OfflineModel();
      published, nextId := [], 1;
    }

    method Send(m: C2CMsg, route: bool, deliver: bool, insert: bool) returns (msgId: int, reply: string)
      modifies this, offline
      ensures var e := Event.Send(m, route, deliver, insert);
              Value() == Next(wire, old(Value()), e) && reply == Reply(e)
      ensures msgId == old(nextId) && nextId == old(nextId) + 1
      ensures route && deliver ==>
                reply == "delivered" && published == old(published) + [m] && offline.rows == old(offline.rows)
      ensures !(route && deliver) ==>
                && reply == "queued" && published == old(published)
                && (insert ==> Waiting(offline.rows, m.to) == Waiting(old(offline.rows), m.to) + [wire.serialize(m)])
                && (!insert ==> offline.rows == old(offline.rows))
    {
      hide Waiting, Lawful;
      WaitingAfterInsert(offline.rows, m.to, wire.serialize(m), m.to);
      msgId := nextId;
      nextId := nextId + 1;
      if route {
        if deliver {
          published := published + [m];
          return msgId, "delivered";
        }
      }
      var _ := offline.Insert(m.to, wire.serialize(m), insert);
      reply := "queued";
    }

    method PullOffline(uid: int, select: bool, selectGroup: bool, delete: bool, deleteGroup: bool)
      returns (msgList: seq<C2CMsg>, groupMsgList: seq<bytes>)
      modifies offline
      ensures var e := Event.PullOffline(uid, select, selectGroup, delete, deleteGroup);
              && Value() == Next(wire, old(Value()), e)
              && msgList == ParsedAll(wire, Returned(old(offline.rows), e))
      ensures groupMsgList == if selectGroup then SelectGroup(old(offline.rows)) else []
    {
      hide Waiting, Wrap, Parsed;
      var bins := offline.Query(uid, select);
      msgList := [];
      for i := 0 to |bins|
        invariant msgList == ParsedAll(wire, bins[..i]) && offline.rows == old(offline.rows)
      {
        ParsedAppend(wire, bins[..i], bins[i]);
        assert bins[..i + 1] == bins[..i] + [bins[i]];
        msgList := msgList + [Parsed(wire, bins[i])];
      }
      assert bins[..|bins|] == bins;
      groupMsgList := offline.QueryGroupMessages(selectGroup);
      var _ := offline.Remove(uid, delete);
      var _ := offline.RemoveGroupMessages(deleteGroup);
    }

    method SendGroup(payload: bytes, insert: bool) returns (reply: string)
      modifies offline
      ensures Value() == Next(wire, old(Value()), Event.SendGroup(payload, insert)) && reply == "group message queued"
    {
      var _ := offline.InsertGroupMessage(payload, insert);
      reply := "group message queued";
    }
  }

  // ---- Whole runs ----

  function Run(w: Wire, events: seq<Event>): Service {
    if |events| == 0 then Service([], []) else Next(w, Run(w, events[..|events| - 1]), events[|events| - 1])
  }

  function Rows(w: Wire, events: seq<Event>): seq<Row> {
    Run(w, events).rows
  }

  /** What the pulls that select by `u` returned, in order. */
  function ReturnedFor(w: Wire, events: seq<Event>, u: int): seq<bytes> {
    if |events| == 0 then []
    else
      var before, e := events[..|events| - 1], events[|events| - 1];
      ReturnedFor(w, before, u) + ReturnedBy(Rows(w, before), e, u)
  }

  function ReturnedBy(rows: seq<Row>, e: Event, u: int): seq<bytes> {
    if e.PullOffline? && Wrap(e.uid) == u then Returned(rows, e) else []
  }

  /** The messages to `u` that were stored, in order. */
  function StoredFor(events: seq<Event>, u: int): seq<C2CMsg> {
    if |events| == 0 then []
    else
      var before, e := events[..|events| - 1], events[|events| - 1];
      StoredFor(before, u) + StoredBy(e, u)
  }

  function StoredBy(e: Event, u: int): seq<C2CMsg> {
    if Stored(e) && e.m.to == u then [e.m] else []
  }

  function SerializedAll(w: Wire, ms: seq<C2CMsg>): seq<bytes> {
    seq(|ms|, i requires 0 <= i < |ms| => w.serialize(ms[i]))
  }

  /** A pull for `u` selects and deletes, or fails to do either. */
  predicate Whole(e: Event, u: int) {
    e.PullOffline? && Wrap(e.uid) == u ==> e.select == e.delete
  }

  /** How each call changes what waits for `u`. */
  lemma WaitingAfter(w: Wire, rows: seq<Row>, e: Event, u: int)
    ensures Waiting(After(w, rows, e), u)
            == if Stored(e) && e.m.to == u then Waiting(rows, u) + [w.serialize(e.m)]
               else if e.PullOffline? && Wrap(e.uid) == u && e.delete then []
               else Waiting(rows, u)
  {
    hide Encoded, Decoded, Wrap;
    match e
    case Send(m, _, _, _) => WaitingAfterInsert(rows, m.to, w.serialize(m), u);
    case PullOffline(uid, _, _, delete, _) =>
      var left := if delete then DeleteDirect(rows, Wrap(uid)) else rows;
      SelectAfterDelete(rows, Wrap(uid), u);
      SelectAfterGroupDelete(left, u);
    case SendGroup(payload, _) => SelectAppend(rows, Group(payload), u);
  }

  /** Conservation: over every run, what the pulls returned and what still waits are, together and in
      order, exactly the payloads stored. */
  lemma {:induction false} Conservation(w: Wire, events: seq<Event>, u: int)
    requires forall e :: e in events ==> Whole(e, u)
    ensures ReturnedFor(w, events, u) + Waiting(Rows(w, events), u) == SerializedAll(w, StoredFor(events, u))
  {
    if |events| > 0 {
      hide Waiting, After, ReturnedBy, StoredBy, SerializedAll, Whole;
      var before, e := events[..|events| - 1], events[|events| - 1];
      Conservation(w, before, u);
      var rows := Rows(w, before);
      BalanceStep(w, rows, e, u);
      SerializedAppend(w, StoredFor(before, u), StoredBy(e, u));
      Regroup(ReturnedFor(w, before, u), ReturnedBy(rows, e, u), Waiting(After(w, rows, e), u),
              Waiting(rows, u), SerializedAll(w, StoredBy(e, u)));
    }
  }

  lemma Regroup<T>(returned: seq<T>, more: seq<T>, left: seq<T>, waiting: seq<T>, stored: seq<T>)
    requires more + left == waiting + stored
    ensures (returned + more) + left == (returned + waiting) + stored
  {
    assert (returned + more) + left == returned + (more + left);
    assert (returned + waiting) + stored == returned + (waiting + stored);
  }

  lemma BalanceStep(w: Wire, rows: seq<Row>, e: Event, u: int)
    requires Whole(e, u)
    ensures ReturnedBy(rows, e, u) + Waiting(After(w, rows, e), u)
            == Waiting(rows, u) + SerializedAll(w, StoredBy(e, u))
  {
    hide Waiting, After, Wrap;
    WaitingAfter(w, rows, e, u);
  }

  lemma SerializedAppend(w: Wire, ms: seq<C2CMsg>, more: seq<C2CMsg>)
    ensures SerializedAll(w, ms + more) == SerializedAll(w, ms) + SerializedAll(w, more)
  {
  }

  /** The same, as messages. */
  lemma MessagesConserved(w: Wire, events: seq<Event>, u: int)
    requires Lawful(w) && forall e :: e in events ==> Whole(e, u)
    ensures ParsedAll(w, ReturnedFor(w, events, u) + Waiting(Rows(w, events), u)) == StoredFor(events, u)
  {
    hide *;
    Conservation(w, events, u);
    ReadBack(w, StoredFor(events, u));
  }

  lemma {:induction false} ReadBack(w: Wire, ms: seq<C2CMsg>)
    requires Lawful(w)
    ensures ParsedAll(w, SerializedAll(w, ms)) == ms
  {
    if |ms| > 0 {
      var before, last := ms[..|ms| - 1], ms[|ms| - 1];
      ReadBack(w, before);
      ParsedAppend(w, SerializedAll(w, before), w.serialize(last));
      assert SerializedAll(w, ms) == SerializedAll(w, before) + [w.serialize(last)];
    }
  }

  /** A pull keeps the balance exactly when it is whole or nothing waits: deleting without having
      selected loses messages, and selecting without deleting returns them again. */
  lemma PullExact(w: Wire, rows: seq<Row>, e: Event)
    requires e.PullOffline?
    ensures Returned(rows, e) + Waiting(After(w, rows, e), Wrap(e.uid)) == Waiting(rows, Wrap(e.uid))
            <==> e.select == e.delete || Waiting(rows, Wrap(e.uid)) == []
  {
    hide Waiting, Wrap, After;
    WaitingAfter(w, rows, e, Wrap(e.uid));
  }

  // ---- Group messages ----

  /** How each call changes what waits for whoever pulls next. */
  lemma GroupsAfter(w: Wire, rows: seq<Row>, e: Event)
    ensures SelectGroup(After(w, rows, e))
            == if e.SendGroup? && e.insert then SelectGroup(rows) + [e.payload]
               else if e.PullOffline? && e.deleteGroup then []
               else SelectGroup(rows)
  {
    hide Encoded, Wrap, SelectGroup, SelectDirect;
    match e
    case Send(m, _, _, _) => GroupsAppend(rows, Direct(m.to, Encoded(w.serialize(m))));
    case PullOffline(uid, _, _, delete, _) =>
      GroupsAfterDelete(rows, Wrap(uid));
      GroupsDeleted(if delete then DeleteDirect(rows, Wrap(uid)) else rows);
    case SendGroup(payload, _) => GroupsAppend(rows, Group(payload));
  }

  /** The group messages that the pulls returned, whoever pulled. */
  function GroupsReturned(w: Wire, events: seq<Event>): seq<bytes> {
    if |events| == 0 then []
    else
      var before, e := events[..|events| - 1], events[|events| - 1];
      GroupsReturned(w, before) + if e.PullOffline? && e.selectGroup then SelectGroup(Rows(w, before)) else []
  }

  function GroupsSent(events: seq<Event>): seq<bytes> {
    if |events| == 0 then []
    else
      var before, e := events[..|events| - 1], events[|events| - 1];
      GroupsSent(before) + if e.SendGroup? && e.insert then [e.payload] else []
  }

  /** Every group message stored goes to one pull, whoever's comes first, or still waits: in order and once. */
  lemma {:induction false} GroupsConserved(w: Wire, events: seq<Event>)
    requires forall e :: e in events && e.PullOffline? ==> e.selectGroup == e.deleteGroup
    ensures GroupsReturned(w, events) + SelectGroup(Rows(w, events)) == GroupsSent(events)
  {
    if |events| > 0 {
      hide After, SelectGroup;
      var before, e := events[..|events| - 1], events[|events| - 1];
      GroupsConserved(w, before);
      GroupsAfter(w, Rows(w, before), e);
    }
  }

  // ---- Every message sent ----

  function Sent(events: seq<Event>): seq<C2CMsg> {
    if |events| == 0 then []
    else
      var before, e := events[..|events| - 1], events[|events| - 1];
      if e.Send? then Sent(before) + [e.m] else Sent(before)
  }

  /** The messages reported as queued although storing them failed. */
  function Lost(events: seq<Event>): seq<C2CMsg> {
    if |events| == 0 then []
    else
      var before, e := events[..|events| - 1], events[|events| - 1];
      if e.Send? && Reply(e) == "queued" && !e.insert then Lost(before) + [e.m] else Lost(before)
  }

  /** Everything the pulls returned, for whomever. */
  function AllReturned(w: Wire, events: seq<Event>): seq<bytes> {
    if |events| == 0 then []
    else
      var before, e := events[..|events| - 1], events[|events| - 1];
      AllReturned(w, before) + Returned(Rows(w, before), e)
  }

  /** The texts of all direct rows, for whomever. */
  function DirectTexts(rows: seq<Row>): seq<string> {
    if rows == [] then []
    else if rows[0].Direct? then [rows[0].text] + DirectTexts(rows[1..]) else DirectTexts(rows[1..])
  }

  function AllWaiting(rows: seq<Row>): seq<bytes> {
    DecodedAll(DirectTexts(rows))
  }

  /** The messages that some texts of the table stand for. */
  function MessagesIn(w: Wire, texts: seq<string>): seq<C2CMsg> {
    ParsedAll(w, DecodedAll(texts))
  }

  lemma MessagesNext(w: Wire, text: string, texts: seq<string>)
    ensures MessagesIn(w, [text] + texts) == [Parsed(w, Decoded(text))] + MessagesIn(w, texts)
    ensures MessagesIn(w, []) == []
  {
    hide Parsed, Decoded;
    assert ([text] + texts)[1..] == texts;
    assert ([Decoded(text)] + DecodedAll(texts))[1..] == DecodedAll(texts);
  }

  /** A deletion takes out of the table what the selection under the same identifier finds. */
  lemma {:induction false} PullSplits(w: Wire, rows: seq<Row>, u: int)
    ensures multiset(MessagesIn(w, DirectTexts(rows)))
            == multiset(MessagesIn(w, SelectDirect(rows, u)))
               + multiset(MessagesIn(w, DirectTexts(DeleteDirect(rows, u))))
  {
    hide MessagesIn;
    if rows == [] {
      MessagesNext(w, "", []);
    } else {
      var rest := rows[1..];
      PullSplits(w, rest, u);
      if rows[0].Direct? {
        MessagesNext(w, rows[0].text, DirectTexts(rest));
        if DirectTo(rows[0], u) {
          MessagesNext(w, rows[0].text, SelectDirect(rest, u));
        } else {
          MessagesNext(w, rows[0].text, DirectTexts(DeleteDirect(rest, u)));
          assert ([rows[0]] + DeleteDirect(rest, u))[1..] == DeleteDirect(rest, u);
        }
      } else {
        assert ([rows[0]] + DeleteDirect(rest, u))[1..] == DeleteDirect(rest, u);
      }
    }
  }

  lemma {:induction false} DirectAppend(rows: seq<Row>, r: Row)
    ensures DirectTexts(rows + [r]) == if r.Direct? then DirectTexts(rows) + [r.text] else DirectTexts(rows)
  {
    if rows != [] {
      assert (rows + [r])[1..] == rows[1..] + [r];
      DirectAppend(rows[1..], r);
    } else {
      assert [r][1..] == [];
    }
  }

  lemma {:induction false} DirectAfterGroupDelete(rows: seq<Row>)
    ensures DirectTexts(DeleteGroup(rows)) == DirectTexts(rows)
  {
    if rows != [] {
      DirectAfterGroupDelete(rows[1..]);
    }
  }

  lemma {:induction false} ParsedConcat(w: Wire, a: seq<bytes>, b: seq<bytes>)
    ensures ParsedAll(w, a + b) == ParsedAll(w, a) + ParsedAll(w, b)
  {
    hide Parsed;
    if a == [] {
      assert a + b == b;
    } else {
      assert (a + b)[1..] == a[1..] + b;
      ParsedConcat(w, a[1..], b);
    }
  }

  /** What one call adds to the table. */
  function StoredNow(e: Event): multiset<C2CMsg> {
    if Stored(e) then multiset{e.m} else multiset{}
  }

  /** What one call adds to the messages sent is what it adds to the published, the lost, the returned and
      the waiting ones together. */
  lemma AccountStep(w: Wire, rows: seq<Row>, e: Event)
    requires Lawful(w) && (e.PullOffline? ==> e.select == e.delete)
    ensures multiset(MessagesIn(w, DirectTexts(rows))) + StoredNow(e)
            == multiset(ParsedAll(w, Returned(rows, e))) + multiset(MessagesIn(w, DirectTexts(After(w, rows, e))))
  {
    hide MessagesIn, DecodedAll, DirectTexts, Encoded, Decoded, Wrap, ParsedAll, SelectDirect, DeleteDirect,
         DeleteGroup;
    NothingParsed(w);
    match e
    case Send(m, _, _, _) => if Stored(e) { StoredAccount(w, rows, m); }
    case PullOffline(uid, _, _, delete, _) =>
      DirectAfterGroupDelete(if delete then DeleteDirect(rows, Wrap(uid)) else rows);
      PullSplits(w, rows, Wrap(uid));
      SelectedMessages(w, rows, Wrap(uid));
    case SendGroup(payload, _) => DirectAppend(rows, Group(payload));
  }

  lemma NothingParsed(w: Wire)
    ensures ParsedAll(w, []) == []
  {
  }

  lemma SelectedMessages(w: Wire, rows: seq<Row>, u: int)
    ensures MessagesIn(w, SelectDirect(rows, u)) == ParsedAll(w, Waiting(rows, u))
  {
  }

  lemma StoredAccount(w: Wire, rows: seq<Row>, m: C2CMsg)
    requires Lawful(w)
    ensures multiset(MessagesIn(w, DirectTexts(rows + [Direct(m.to, Encoded(w.serialize(m)))])))
            == multiset(MessagesIn(w, DirectTexts(rows))) + multiset{m}
  {
    hide DirectTexts, DecodedAll, Encoded, Decoded, ParsedAll;
    var text, texts := Encoded(w.serialize(m)), DirectTexts(rows);
    DirectAppend(rows, Direct(m.to, text));
    DecodedAppend(texts, text);
    ParsedAppend(w, DecodedAll(texts), Decoded(text));
    RoundTrip(w.serialize(m));
  }

  lemma ReplyTells(e: Event)
    requires e.Send?
    ensures Reply(e) == "queued" <==> !Published(e)
  {
    assert "queued"[0] != "delivered"[0];
  }

  /** Every message sent, over every run whose pulls are whole: it was handed to Presence, or reported as
      queued although storing it failed, or returned by one pull, or is still waiting; each one once. */
  lemma {:induction false} SentAccounted(w: Wire, events: seq<Event>)
    requires Lawful(w) && forall e :: e in events && e.PullOffline? ==> e.select == e.delete
    ensures multiset(Sent(events))
            == multiset(Run(w, events).published) + multiset(Lost(events))
               + multiset(ParsedAll(w, AllReturned(w, events))) + multiset(ParsedAll(w, AllWaiting(Rows(w, events))))
  {
    if |events| > 0 {
      hide *;
      var before, e := events[..|events| - 1], events[|events| - 1];
      SentAccounted(w, before);
      SendStep(w, events);
      TableStep(w, events);
      Balance(multiset(Sent(before)), multiset(Run(w, before).published), multiset(Lost(before)),
              multiset(ParsedAll(w, AllReturned(w, before))), multiset(ParsedAll(w, AllWaiting(Rows(w, before)))),
              multiset(Sent(events)), multiset(Run(w, events).published), multiset(Lost(events)),
              multiset(ParsedAll(w, AllReturned(w, events))), multiset(ParsedAll(w, AllWaiting(Rows(w, events)))),
              StoredNow(e));
    } else {
      NothingWaits(w);
    }
  }

  lemma SendStep(w: Wire, events: seq<Event>)
    requires |events| > 0
    ensures var before, e := events[..|events| - 1], events[|events| - 1];
            multiset(Sent(events)) + multiset(Run(w, before).published) + multiset(Lost(before))
            == multiset(Sent(before)) + multiset(Run(w, events).published) + multiset(Lost(events))
               + StoredNow(e)
  {
    hide After;
    var e := events[|events| - 1];
    if e.Send? { ReplyTells(e); }
  }

  lemma TableStep(w: Wire, events: seq<Event>)
    requires Lawful(w) && |events| > 0
    requires var e := events[|events| - 1]; e.PullOffline? ==> e.select == e.delete
    ensures var before, e := events[..|events| - 1], events[|events| - 1];
            multiset(ParsedAll(w, AllWaiting(Rows(w, before)))) + multiset(ParsedAll(w, AllReturned(w, before)))
            + StoredNow(e)
            == multiset(ParsedAll(w, AllReturned(w, events))) + multiset(ParsedAll(w, AllWaiting(Rows(w, events))))
  {
    hide Lawful, After, Returned, ParsedAll, DirectTexts, DecodedAll, StoredNow;
    var before, e := events[..|events| - 1], events[|events| - 1];
    var rows, rows' := Rows(w, before), Rows(w, events);
    assert rows' == After(w, rows, e);
    AccountStep(w, rows, e);
    ParsedConcat(w, AllReturned(w, before), Returned(rows, e));
    assert AllReturned(w, events) == AllReturned(w, before) + Returned(rows, e);
    assert MessagesIn(w, DirectTexts(rows)) == ParsedAll(w, AllWaiting(rows));
    assert MessagesIn(w, DirectTexts(rows')) == ParsedAll(w, AllWaiting(rows'));
    Rearrange(multiset(ParsedAll(w, AllWaiting(rows))), multiset(ParsedAll(w, AllReturned(w, before))),
              StoredNow(e), multiset(ParsedAll(w, Returned(rows, e))),
              multiset(ParsedAll(w, AllWaiting(rows'))));
  }

  lemma Rearrange<T>(waiting: multiset<T>, earlier: multiset<T>, stored: multiset<T>, returned: multiset<T>,
                     waiting': multiset<T>)
    requires waiting + stored == returned + waiting'
    ensures waiting + earlier + stored == (earlier + returned) + waiting'
  {
    forall x ensures (waiting + earlier + stored)[x] == ((earlier + returned) + waiting')[x] {
      assert (waiting + stored)[x] == (returned + waiting')[x];
    }
  }

  lemma Balance<T>(sent: multiset<T>, published: multiset<T>, lost: multiset<T>, returned: multiset<T>,
                   waiting: multiset<T>, sent': multiset<T>, published': multiset<T>, lost': multiset<T>,
                   returned': multiset<T>, waiting': multiset<T>, stored: multiset<T>)
    requires sent == published + lost + returned + waiting
    requires sent' + published + lost == sent + published' + lost' + stored
    requires waiting + returned + stored == returned' + waiting'
    ensures sent' == published' + lost' + returned' + waiting'
  {
    forall x ensures sent'[x] == (published' + lost' + returned' + waiting')[x] {
      assert (sent' + published + lost)[x] == (sent + published' + lost' + stored)[x];
      assert (waiting + returned + stored)[x] == (returned' + waiting')[x];
    }
  }

  lemma NothingWaits(w: Wire)
    ensures ParsedAll(w, []) == [] == ParsedAll(w, AllWaiting([]))
  {
  }

  // ---- Identifiers wider than 32 bits ----

  /** A pull returns the messages of the identifier it was given, in every table, exactly when that
      identifier fits in 32 bits. */
  lemma PullTakesOwn(uid: int)
    ensures Is32(uid) <==>
            forall rows, g, d, dg ::
              Returned(rows, PullOffline(uid, true, g, d, dg)) == Waiting(rows, uid)
  {
    if Is32(uid) {
      assert Wrap(uid) == uid;
    } else {
      var rows := [Direct(Wrap(uid), Encoded([]))];
      assert Wrap(uid) != uid;
      WaitingAfterInsert([], Wrap(uid), [], Wrap(uid));
      WaitingAfterInsert([], Wrap(uid), [], uid);
      assert rows == [] + rows;
      assert Returned(rows, PullOffline(uid, true, true, true, true)) != Waiting(rows, uid);
    }
  }

  /** The messages to a wider identifier wait for ever, whatever the pulls ask for. */
  lemma WideWaitsForEver(w: Wire, events: seq<Event>, u: int)
    requires !Is32(u)
    ensures Waiting(Rows(w, events), u) == SerializedAll(w, StoredFor(events, u))
  {
    hide Wrap, Waiting, Rows, SerializedAll;
    forall e | e in events ensures Whole(e, u) {
      WrapIs32(e);
    }
    Conservation(w, events, u);
    NothingReturned(w, events, u);
    assert [] + Waiting(Rows(w, events), u) == Waiting(Rows(w, events), u);
  }

  lemma WrapIs32(e: Event)
    ensures e.PullOffline? ==> Is32(Wrap(e.uid))
  {
  }

  lemma {:induction false} NothingReturned(w: Wire, events: seq<Event>, u: int)
    requires !Is32(u)
    ensures ReturnedFor(w, events, u) == []
  {
    if |events| > 0 {
      NothingReturned(w, events[..|events| - 1], u);
    }
  }

  // ---- Calls that are not atomic ----

  /** Between the selection and the deletion of a pull of `u` another call may come.  Nothing waits for `u`
      at the end, and what both returned is what waited and was stored exactly when the other call neither
      stores a message to `u`, which is deleted unread, nor returns messages of `u`, which are returned twice. */
  lemma BetweenExactly(w: Wire, rows: seq<Row>, e: Event, u: int)
    requires Is32(u)
    ensures Waiting(DeleteDirect(After(w, rows, e), Wrap(u)), u) == []
    ensures (Waiting(rows, Wrap(u)) + ReturnedBy(rows, e, u))
            + Waiting(DeleteDirect(After(w, rows, e), Wrap(u)), u)
            == Waiting(rows, u) + SerializedAll(w, StoredBy(e, u))
            <==> !(Stored(e) && e.m.to == u) && ReturnedBy(rows, e, u) == []
  {
    hide Waiting, Wrap, After, DeleteDirect, ReturnedBy;
    WrapFits(u);
    DeletedWaiting(After(w, rows, e), u);
    StoredReturnsNothing(rows, e, u);
  }

  lemma StoredReturnsNothing(rows: seq<Row>, e: Event, u: int)
    ensures Stored(e) ==> ReturnedBy(rows, e, u) == []
  {
  }
}
