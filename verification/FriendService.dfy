/** The friend table and the cache of friend lists in front of it.  Whether each statement and the Redis
    commands of a call take effect is an argument of the call. */
module FriendService {
  import opened Bytes
  import opened Decimal
  import opened Strings
  import opened Wrappers

  // ---- Redis ----

  datatype Value = Text(s: string) | Members(m: set<string>)

  type Redis = map<string, Value>

  /** A key that holds a set reads as nothing, as a missing one does. */
  function Got(r: Redis, key: string): string {
    if key in r && r[key].Text? then r[key].s else ""
  }

  /** Adding to a key that holds a text is an error and changes nothing. */
  function Added(r: Redis, key: string, member: string): Redis {
    if key !in r then r[key := Members({member})]
    else if r[key].Members? then r[key := Members(r[key].m + {member})] else r
  }

  function Removed(r: Redis, key: string, member: string): Redis {
    if key in r && r[key].Members? then
      var m := r[key].m - {member};
      if m == {} then r - {key} else r[key := Members(m)]
    else r
  }

  // ---- The friend table ----

  datatype Row = Row(userid: int, friendid: int)

  /** `SELECT friendid FROM friend WHERE userid=u`. */
  function FriendsOf(rows: seq<Row>, u: int): seq<int> {
    if |rows| == 0 then []
    else
      var before, last := FriendsOf(rows[..|rows| - 1], u), rows[|rows| - 1];
      if last.userid == u then before + [last.friendid] else before
  }

  /** A new row stands wherever the table's order puts it. */
  function Inserted(rows: seq<Row>, r: Row, place: nat): seq<Row> {
    var m := if place <= |rows| then place else |rows|;
    rows[..m] + [r] + rows[m..]
  }

  function Without(rows: seq<Row>, r: Row): seq<Row> {
    if |rows| == 0 then []
    else
      var before, last := Without(rows[..|rows| - 1], r), rows[|rows| - 1];
      if last == r then before else before + [last]
  }

  // ---- The cached text of a list ----

  function Key(u: int): string {
    "friends:" + Print(u)
  }

  function Prints(ids: seq<int>): seq<string> {
    seq(|ids|, i requires 0 <= i < |ids| => Print(ids[i]))
  }

  function Listed(ids: seq<int>): string {
    Join(Prints(ids), ',')
  }

  /** The ids of the parts that are not empty, unless one of them is no number. */
  function Ids(parts: seq<string>): Option<seq<int>> {
    if |parts| == 0 then Some([])
    else
      var before, last := Ids(parts[..|parts| - 1]), parts[|parts| - 1];
      if before.None? then None
      else if last == "" then before
      else
        var id := Stoll(last);
        if id.None? then None else Some(before.value + [id.value])
  }

  /** What a cached text is read as. */
  function ReadList(text: string): Option<seq<int>> {
    Ids(Split(text, ',', |text| + 2))
  }

  lemma {:induction false} IdsOfPrints(ids: seq<int>)
    requires forall id :: id in ids ==> Is64(id)
    ensures Ids(Prints(ids)) == Some(ids)
  {
    hide Print, Stoll, Is64;
    if |ids| > 0 {
      var before, last := ids[..|ids| - 1], ids[|ids| - 1];
      IdsOfPrints(before);
      StollOfPrint(last);
      assert Prints(ids)[..|ids| - 1] == Prints(before);
      assert ids == before + [last];
    }
  }

  /** Reading undoes listing, for every list that is not empty. */
  lemma ListRoundTrip(ids: seq<int>)
    requires ids != [] && forall id :: id in ids ==> Is64(id)
    ensures ReadList(Listed(ids)) == Some(ids) && Listed(ids) != ""
  {
    hide Print, Stoll, Is64, Split, Join, Ids;
    var parts := Prints(ids);
    IdsOfPrints(ids);
    JoinLonger(parts, ',');
    forall part | part in parts ensures ',' !in part && part != "" {
      var i :| 0 <= i < |ids| && part == Print(ids[i]);
    }
    assert parts[0] in parts;
    SplitJoined(parts, ',', |Listed(ids)| + 2);
  }

  lemma {:induction false} JoinLonger(parts: seq<string>, d: char)
    requires parts != []
    ensures |Join(parts, d)| >= |parts| - 1 && (parts[0] != "" ==> Join(parts, d) != "")
  {
    if |parts| > 1 {
      JoinLonger(parts[1..], d);
    }
  }

  lemma ListedNext(ids: seq<int>, id: int)
    ensures Listed(ids + [id]) == if ids == [] then Print(id) else Listed(ids) + "," + Print(id)
  {
    hide Print;
    assert Prints(ids + [id]) == Prints(ids) + [Print(id)];
    if ids != [] { JoinNext(Prints(ids), ',', Print(id)); }
  }

  lemma {:induction false} JoinNext(parts: seq<string>, d: char, part: string)
    requires parts != []
    ensures Join(parts + [part], d) == Join(parts, d) + [d] + part
  {
    if |parts| > 1 {
      assert (parts + [part])[1..] == parts[1..] + [part];
      JoinNext(parts[1..], d, part);
    } else {
      assert (parts + [part])[1..] == [part];
    }
  }

  // ---- The calls ----

  datatype State = State(rows: seq<Row>, redis: Redis)

  datatype Code = Ok | INVALID | NOT_FOUND | INTERNAL

  /** `asked`, `found`, `first` and `second` are the outcomes of the statements, in order; `places` are where
      the new rows stand; `redis` says whether the cache commands take effect. */
  datatype Event =
    | AddFriend(user: int, friend: int, asked: bool, found: Option<bool>, first: bool, second: bool,
                places: (nat, nat), redis: bool)
    | RemoveFriend(user: int, friend: int, first: bool, second: bool, redis: bool)
    | GetFriends(user: int, asked: bool, redis: bool)
    | Expire(key: string)

  predicate IsFriend(rows: seq<Row>, user: int, friend: int) {
    Row(Wrap(user), Wrap(friend)) in rows
  }

  /** The code of an `AddFriend`, and so how far it got. */
  function AddCode(rows: seq<Row>, e: Event): Code
    requires e.AddFriend?
  {
    if e.asked && IsFriend(rows, e.user, e.friend) then INVALID
    else if e.found.None? then INTERNAL
    else if !e.found.value then NOT_FOUND
    else if !e.first || !e.second then INTERNAL else Ok
  }

  /** Only the first insertion took effect. */
  predicate HalfAdded(rows: seq<Row>, e: Event)
    requires e.AddFriend?
  {
    AddCode(rows, e) == INTERNAL && e.found == Some(true) && e.first
  }

  function RowsAfterAdd(rows: seq<Row>, e: Event): seq<Row>
    requires e.AddFriend?
  {
    var u, f := Wrap(e.user), Wrap(e.friend);
    if AddCode(rows, e) == Ok then Inserted(Inserted(rows, Row(u, f), e.places.0), Row(f, u), e.places.1)
    else if HalfAdded(rows, e) then Inserted(rows, Row(u, f), e.places.0)
    else rows
  }

  function RowsAfterRemove(rows: seq<Row>, e: Event): seq<Row>
    requires e.RemoveFriend?
  {
    var u, f := Wrap(e.user), Wrap(e.friend);
    if !e.first then rows
    else if !e.second then Without(rows, Row(u, f)) else Without(Without(rows, Row(u, f)), Row(f, u))
  }

  function RedisAfterAdd(r: Redis, user: int, friend: int): Redis {
    Added(Added(r, Key(user), Print(friend)), Key(friend), Print(user)) - {Key(user)} - {Key(friend)}
  }

  function RedisAfterRemove(r: Redis, user: int, friend: int): Redis {
    Removed(Removed(r, Key(user), Print(friend)), Key(friend), Print(user)) - {Key(user)} - {Key(friend)}
  }

  /** A list that the table gives is cached unless it is empty. */
  function RedisAfterGet(s: State, e: Event): Redis
    requires e.GetFriends?
  {
    var ids := FriendsOf(s.rows, Wrap(e.user));
    if !e.redis || Got(s.redis, Key(e.user)) != "" || !e.asked || ids == [] then s.redis
    else s.redis[Key(e.user) := Text(Listed(ids))]
  }

  function After(s: State, e: Event): State {
    match e
    case AddFriend(user, friend, _, _, _, _, _, redis) =>
      State(RowsAfterAdd(s.rows, e),
            if AddCode(s.rows, e) == Ok && redis then RedisAfterAdd(s.redis, user, friend) else s.redis)
    case RemoveFriend(user, friend, first, second, redis) =>
      State(RowsAfterRemove(s.rows, e),
            if first && second && redis then RedisAfterRemove(s.redis, user, friend) else s.redis)
    case GetFriends(_, _, _) => State(s.rows, RedisAfterGet(s, e))
    case Expire(key) => s.(redis := s.redis - {key})
  }

  /** What `GetFriends` answers: nothing when the query fails or the cached text is no list. */
  function FriendIds(s: State, e: Event): Option<seq<int>>
    requires e.GetFriends?
  {
    var text := if e.redis then Got(s.redis, Key(e.user)) else "";
    if text != "" then ReadList(text) else if e.asked then Some(FriendsOf(s.rows, Wrap(e.user))) else None
  }

  lemma {:induction false} IdsFail(parts: seq<string>, more: seq<string>)
    requires Ids(parts).None?
    ensures Ids(parts + more).None?
    decreases |more|
  {
    hide Stoll;
    if |more| == 0 {
      assert parts + more == parts;
    } else {
      IdsFail(parts, more[..|more| - 1]);
      assert (parts + more)[..|parts + more| - 1] == parts + more[..|more| - 1];
    }
  }

  lemma IdsNext(parts: seq<string>, part: string)
    requires Ids(parts).Some?
    ensures Ids(parts + [part]) == if part == "" then Ids(parts)
                                   else if Stoll(part).None? then None else Some(Ids(parts).value + [Stoll(part).value])
  {
    hide Stoll;
    assert (parts + [part])[..|parts|] == parts;
  }

  /** The loop over `getline`. */
  method ParseList(text: string) returns (ids: Option<seq<int>>)
    ensures ids == ReadList(text)
  {
    hide Find, Split, Ids, Stoll;
    var list: seq<int> := [];
    var rest, more := text, true;
    ghost var parts: seq<string> := [];
    ghost var m := |text| + 2;
    assert Ids([]) == Some([]) by { NoIds(); }
    while more
      invariant more ==> |parts| + |rest| <= |text| && Split(text, ',', m) == parts + Split(rest, ',', m - |parts|)
      invariant !more ==> Split(text, ',', m) == parts
      invariant Ids(parts) == Some(list)
      decreases |rest| + if more then 1 else 0
    {
      var pos := Find(rest, ',');
      SplitFrom(rest, 0, ',', m - |parts|);
      assert rest[0..] == rest;
      var part := if pos.Some? then rest[..pos.value] else rest;
      ghost var later := if pos.Some? then Split(rest[pos.value + 1..], ',', m - |parts| - 1) else [];
      assert Split(rest, ',', m - |parts|) == [part] + later;
      assert parts + ([part] + later) == (parts + [part]) + later;
      IdsNext(parts, part);
      if part != "" {
        var id := Stoll(part);
        if id.None? {
          IdsFail(parts + [part], later);
          return None;
        }
        list := list + [id.value];
      }
      parts := parts + [part];
      if pos.Some? { rest := rest[pos.value + 1..]; } else { more, rest := false, ""; }
    }
    ids := Some(list);
  }

  lemma NoIds()
    ensures Ids([]) == Some([])
  {
  }

  class UserCache {
    var entries: Redis

    constructor ()
      ensures entries == map[]
    {
      entries := map[];
    }

    method GetFriends(user: int, ok: bool) returns (text: string)
      ensures text == if ok then Got(entries, Key(user)) else ""
    {
      text := if ok then Got(entries, Key(user)) else "";
    }

    method SetFriends(user: int, text: string, ok: bool)
      modifies this
      ensures entries == if ok then old(entries)[Key(user) := Text(text)] else old(entries)
    {
      if ok { entries := entries[Key(user) := Text(text)]; }
    }

    method DelFriends(user: int, ok: bool)
      modifies this
      ensures entries == if ok then old(entries) - {Key(user)} else old(entries)
    {
      if ok { entries := entries - {Key(user)}; }
    }

    method AddFriend(user: int, friend: int, ok: bool)
      modifies this
      ensures entries == if ok then Added(old(entries), Key(user), Print(friend)) else old(entries)
      ensures forall key :: Got(entries, key) == Got(old(entries), key)
    {
      if ok { entries := Added(entries, Key(user), Print(friend)); }
    }

    method RemoveFriend(user: int, friend: int, ok: bool)
      modifies this
      ensures entries == if ok then Removed(old(entries), Key(user), Print(friend)) else old(entries)
      ensures forall key :: Got(entries, key) == Got(old(entries), key)
    {
      if ok { entries := Removed(entries, Key(user), Print(friend)); }
    }
  }

  class UserServiceImpl {
    const cache: UserCache
    /** The friend table. */
    var rows: seq<Row>

    function Value(): State
      reads this, cache
    {
      State(rows, cache.entries)
    }

    constructor (table: seq<Row>)
      ensures fresh(cache) && Value() == State(table, map[])
    {
      cache := new UserCache();
      rows := table;
    }

    method AddFriend(user: int, friend: int, asked: bool, found: Option<bool>, first: bool, second: bool,
                     places: (nat, nat), redis: bool)
      returns (code: Code)
      modifies this, cache
      ensures var e := Event.AddFriend(user, friend, asked, found, first, second, places, redis);
              code == AddCode(old(rows), e) && Value() == After(old(Value()), e)
      ensures var already := asked && Row(Wrap(user), Wrap(friend)) in old(rows);
              && (code == INVALID <==> already)
              && (code == NOT_FOUND <==> !already && found == Some(false))
              && (code == INTERNAL <==> !already && (found == None || (found == Some(true) && !(first && second))))
              && (code == Ok <==> !already && found == Some(true) && first && second)
    {
      hide Added, Key, Print, Wrap, Inserted;
      if asked {
        if IsFriend(rows, user, friend) { return INVALID; }
      }
      if found.None? { return INTERNAL; }
      if !found.value { return NOT_FOUND; }
      if !first { return INTERNAL; }
      rows := Inserted(rows, Row(Wrap(user), Wrap(friend)), places.0);
      if !second { return INTERNAL; }
      rows := Inserted(rows, Row(Wrap(friend), Wrap(user)), places.1);
      cache.AddFriend(user, friend, redis);
      cache.AddFriend(friend, user, redis);
      cache.DelFriends(user, redis);
      cache.DelFriends(friend, redis);
      code := Ok;
    }

    method RemoveFriend(user: int, friend: int, first: bool, second: bool, redis: bool) returns (code: Code)
      modifies this, cache
      ensures var e := Event.RemoveFriend(user, friend, first, second, redis);
              code == (if first && second then Ok else INTERNAL) && Value() == After(old(Value()), e)
    {
      hide Removed, Key, Print, Wrap, Without;
      if !first { return INTERNAL; }
      rows := Without(rows, Row(Wrap(user), Wrap(friend)));
      if !second { return INTERNAL; }
      rows := Without(rows, Row(Wrap(friend), Wrap(user)));
      cache.RemoveFriend(user, friend, redis);
      cache.RemoveFriend(friend, user, redis);
      cache.DelFriends(user, redis);
      cache.DelFriends(friend, redis);
      code := Ok;
    }

    method GetFriends(user: int, asked: bool, redis: bool) returns (ids: Option<seq<int>>)
      modifies cache
      ensures var e := Event.GetFriends(user, asked, redis);
              ids == FriendIds(old(Value()), e) && Value() == After(old(Value()), e)
    {
      hide Key, Print, Wrap, FriendsOf, Listed, ReadList;
      var text := cache.GetFriends(user, redis);
      if text != "" {
        ids := ParseList(text);
        return;
      }
      if !asked { return None; }
      var res := FriendsOf(rows, Wrap(user));
      var friendsData := "";
      for i := 0 to |res|
        invariant friendsData == (if i == 0 then "" else Listed(res[..i])) && (i > 0 ==> friendsData != "")
        invariant cache.entries == old(cache.entries)
      {
        ListedNext(res[..i], res[i]);
        assert res[..i + 1] == res[..i] + [res[i]];
        if friendsData != "" { friendsData := friendsData + ","; }
        friendsData := friendsData + Print(res[i]);
      }
      assert res[..|res|] == res;
      if friendsData != "" { cache.SetFriends(user, friendsData, redis); }
      ids := Some(res);
    }
  }

  // ---- Whole runs ----

  /** The calls' identifiers fit in 32 bits; a call that changes the table changes it wholly and its cache
      commands take effect. */
  predicate Sound(e: Event) {
    match e
    case AddFriend(user, friend, _, _, first, second, _, redis) =>
      Is32(user) && Is32(friend) && (first ==> second && redis)
    case RemoveFriend(user, friend, first, second, redis) =>
      Is32(user) && Is32(friend) && (first ==> second && redis)
    case GetFriends(user, _, _) => Is32(user)
    case Expire(_) => true
  }

  /** A second statement on the table does not fail after a first that succeeded. */
  predicate BothOrNeither(e: Event) {
    (e.AddFriend? || e.RemoveFriend?) && e.first ==> e.second
  }

  function Run(rows: seq<Row>, events: seq<Event>): State {
    if |events| == 0 then State(rows, map[]) else After(Run(rows, events[..|events| - 1]), events[|events| - 1])
  }

  /** The identifiers of the table, an `INT` column. */
  ghost predicate Columns(rows: seq<Row>) {
    forall r :: r in rows ==> Is32(r.userid) && Is32(r.friendid)
  }

  /** A cached text is the list the table gives for that identifier. */
  ghost predicate CachedRight(s: State, u: int) {
    Got(s.redis, Key(u)) != "" ==>
      Got(s.redis, Key(u)) == Listed(FriendsOf(s.rows, Wrap(u))) && FriendsOf(s.rows, Wrap(u)) != []
  }

  ghost predicate Coherent(s: State) {
    forall u :: Is64(u) ==> CachedRight(s, u)
  }

  ghost predicate Symmetric(rows: seq<Row>) {
    forall a, b :: Row(a, b) in rows <==> Row(b, a) in rows
  }

  lemma KeyInjective(u: int, v: int)
    requires Is64(u) && Is64(v) && Key(u) == Key(v)
    ensures u == v
  {
    hide Print, Is64;
    assert Key(u)[8..] == Print(u) && Key(v)[8..] == Print(v);
    PrintInjective(u, v);
  }

  // ---- Lists of a changed table ----

  lemma FriendsAppend(rows: seq<Row>, r: Row, x: int)
    ensures FriendsOf(rows + [r], x) == if r.userid == x then FriendsOf(rows, x) + [r.friendid] else FriendsOf(rows, x)
  {
    assert (rows + [r])[..|rows|] == rows;
  }

  lemma {:induction false} FriendsConcat(a: seq<Row>, b: seq<Row>, x: int)
    ensures FriendsOf(a + b, x) == FriendsOf(a, x) + FriendsOf(b, x)
    decreases |b|
  {
    if |b| == 0 {
      assert a + b == a;
    } else {
      var front, last := b[..|b| - 1], b[|b| - 1];
      FriendsConcat(a, front, x);
      FriendsAppend(a + front, last, x);
      assert a + b == (a + front) + [last];
    }
  }

  /** A new row makes its user's list one longer, whatever its place, and changes no other list. */
  lemma FriendsInsert(rows: seq<Row>, r: Row, place: nat, x: int)
    ensures r.userid != x ==> FriendsOf(Inserted(rows, r, place), x) == FriendsOf(rows, x)
    ensures r.userid == x ==> |FriendsOf(Inserted(rows, r, place), x)| == |FriendsOf(rows, x)| + 1
    ensures forall y :: y in Inserted(rows, r, place) <==> y in rows || y == r
    ensures |Inserted(rows, r, place)| == |rows| + 1
  {
    hide FriendsOf;
    var m := if place <= |rows| then place else |rows|;
    FriendsConcat(rows[..m] + [r], rows[m..], x);
    FriendsConcat(rows[..m], rows[m..], x);
    FriendsAppend(rows[..m], r, x);
    assert rows == rows[..m] + rows[m..];
    assert forall y :: y in rows <==> y in rows[..m] || y in rows[m..];
  }

  lemma {:induction false} FriendsWithout(rows: seq<Row>, r: Row, x: int)
    ensures r.userid != x ==> FriendsOf(Without(rows, r), x) == FriendsOf(rows, x)
  {
    if |rows| > 0 {
      var before, last := rows[..|rows| - 1], rows[|rows| - 1];
      FriendsWithout(before, r, x);
      FriendsAppend(Without(before, r), last, x);
    }
  }

  lemma {:induction false} WithoutRow(rows: seq<Row>, r: Row, x: Row)
    ensures x in Without(rows, r) <==> x in rows && x != r
  {
    if |rows| > 0 {
      WithoutRow(rows[..|rows| - 1], r, x);
      assert rows == rows[..|rows| - 1] + [rows[|rows| - 1]];
    }
  }

  lemma {:induction false} FriendsInTable(rows: seq<Row>, x: int, f: int)
    ensures f in FriendsOf(rows, x) <==> Row(x, f) in rows
  {
    if |rows| > 0 {
      FriendsInTable(rows[..|rows| - 1], x, f);
      assert rows == rows[..|rows| - 1] + [rows[|rows| - 1]];
    }
  }

  /** Whose list an `AddFriend` makes longer. */
  function Lengthened(rows: seq<Row>, e: Event): set<int>
    requires e.AddFriend?
  {
    if AddCode(rows, e) == Ok then {Wrap(e.user), Wrap(e.friend)}
    else if HalfAdded(rows, e) then {Wrap(e.user)} else {}
  }

  /** Whose list a `RemoveFriend` makes shorter. */
  function Shortened(rows: seq<Row>, e: Event): set<int>
    requires e.RemoveFriend?
  {
    var u, f := Wrap(e.user), Wrap(e.friend);
    (if e.first && Row(u, f) in rows then {u} else {}) + (if e.first && e.second && Row(f, u) in rows then {f} else {})
  }

  /** Whose list a call changes. */
  function Changed(rows: seq<Row>, e: Event): set<int> {
    if e.AddFriend? then Lengthened(rows, e) else if e.RemoveFriend? then Shortened(rows, e) else {}
  }

  lemma AddChanges(rows: seq<Row>, e: Event, x: int)
    requires e.AddFriend?
    ensures x !in Lengthened(rows, e) ==> FriendsOf(RowsAfterAdd(rows, e), x) == FriendsOf(rows, x)
    ensures x in Lengthened(rows, e) ==> |FriendsOf(RowsAfterAdd(rows, e), x)| > |FriendsOf(rows, x)|
  {
    hide Wrap, FriendsOf, Inserted;
    var u, f := Wrap(e.user), Wrap(e.friend);
    FriendsInsert(rows, Row(u, f), e.places.0, x);
    FriendsInsert(Inserted(rows, Row(u, f), e.places.0), Row(f, u), e.places.1, x);
  }

  lemma RemoveChanges(rows: seq<Row>, e: Event, x: int)
    requires e.RemoveFriend?
    ensures FriendsOf(RowsAfterRemove(rows, e), x) != FriendsOf(rows, x) <==> x in Shortened(rows, e)
  {
    hide Wrap, FriendsOf, Without;
    var r, back := Row(Wrap(e.user), Wrap(e.friend)), Row(Wrap(e.friend), Wrap(e.user));
    var once := Without(rows, r);
    WithoutChanges(rows, r, x);
    WithoutChanges(once, back, x);
    WithoutRow(rows, r, back);
    if e.first && e.second && x == r.userid && r in rows {
      FriendsInTable(rows, x, r.friendid);
      FriendsInTable(Without(once, back), x, r.friendid);
      WithoutRow(rows, r, r);
      WithoutRow(once, back, r);
    }
  }

  /** A deletion changes exactly the list of a row that is there. */
  lemma WithoutChanges(rows: seq<Row>, r: Row, x: int)
    ensures FriendsOf(Without(rows, r), x) != FriendsOf(rows, x) <==> r in rows && r.userid == x
  {
    hide FriendsOf, Without;
    FriendsWithout(rows, r, x);
    if r in rows {
      FriendsInTable(rows, r.userid, r.friendid);
      FriendsInTable(Without(rows, r), r.userid, r.friendid);
      WithoutRow(rows, r, r);
    } else {
      WithoutAbsent(rows, r);
    }
  }

  lemma {:induction false} WithoutAbsent(rows: seq<Row>, r: Row)
    requires r !in rows
    ensures Without(rows, r) == rows
  {
    if |rows| > 0 {
      WithoutAbsent(rows[..|rows| - 1], r);
    }
  }

  // ---- What the lists become ----

  /** The list without an identifier, the others as often and in the same order. */
  function Dropping(ids: seq<int>, y: int): seq<int> {
    if ids == [] then [] else if ids[0] == y then Dropping(ids[1..], y) else [ids[0]] + Dropping(ids[1..], y)
  }

  lemma {:induction false} DroppingAppend(ids: seq<int>, id: int, y: int)
    ensures Dropping(ids + [id], y) == if id == y then Dropping(ids, y) else Dropping(ids, y) + [id]
  {
    if ids == [] {
      assert [id][1..] == [];
    } else {
      assert (ids + [id])[1..] == ids[1..] + [id];
      DroppingAppend(ids[1..], id, y);
    }
  }

  /** A deletion takes every copy of the row and no other row, and the rest keep their order. */
  lemma {:induction false} WithoutCounts(rows: seq<Row>, r: Row)
    ensures multiset(Without(rows, r)) == multiset(rows)[r := 0]
  {
    if |rows| > 0 {
      var before, last := rows[..|rows| - 1], rows[|rows| - 1];
      WithoutCounts(before, r);
      assert rows == before + [last];
      assert multiset(rows) == multiset(before) + multiset{last};
    }
  }

  lemma {:induction false} FriendsDropped(rows: seq<Row>, r: Row, x: int)
    ensures FriendsOf(Without(rows, r), x)
            == if x == r.userid then Dropping(FriendsOf(rows, x), r.friendid) else FriendsOf(rows, x)
  {
    if |rows| > 0 {
      var before, last := rows[..|rows| - 1], rows[|rows| - 1];
      FriendsDropped(before, r, x);
      if last != r { FriendsAppend(Without(before, r), last, x); }
      if last.userid == x { DroppingAppend(FriendsOf(before, x), last.friendid, r.friendid); }
    }
  }

  /** After a removal the user's list is the old one without the friend, and the friend's without the user;
      when the second deletion failed, only the user's is. */
  lemma RemoveLists(rows: seq<Row>, e: Event, x: int)
    requires e.RemoveFriend? && e.first
    ensures var u, f := Wrap(e.user), Wrap(e.friend);
            FriendsOf(RowsAfterRemove(rows, e), x)
            == if x == u then Dropping(FriendsOf(rows, x), f)
               else if x == f && e.second then Dropping(FriendsOf(rows, x), u)
               else FriendsOf(rows, x)
  {
    hide Wrap, FriendsOf, Without, Dropping;
    var u, f := Wrap(e.user), Wrap(e.friend);
    FriendsDropped(rows, Row(u, f), x);
    FriendsDropped(Without(rows, Row(u, f)), Row(f, u), x);
    if u == f { DroppingTwice(FriendsOf(rows, x), f); }
  }

  lemma {:induction false} DroppingTwice(ids: seq<int>, y: int)
    ensures Dropping(Dropping(ids, y), y) == Dropping(ids, y)
    ensures multiset(Dropping(ids, y)) == multiset(ids)[y := 0]
  {
    if ids != [] {
      DroppingTwice(ids[1..], y);
      assert ids == [ids[0]] + ids[1..];
      assert Dropping(ids, y) != [] && ids[0] != y ==> Dropping(ids, y)[1..] == Dropping(ids[1..], y);
    }
  }

  /** The longer list is the shorter one with one more identifier somewhere in it. */
  ghost predicate OneMore(longer: seq<int>, shorter: seq<int>, y: int) {
    exists i :: 0 <= i <= |shorter| && longer == shorter[..i] + [y] + shorter[i..]
  }

  lemma FriendsWithNew(rows: seq<Row>, r: Row, place: nat, x: int)
    ensures if r.userid == x then OneMore(FriendsOf(Inserted(rows, r, place), x), FriendsOf(rows, x), r.friendid)
            else FriendsOf(Inserted(rows, r, place), x) == FriendsOf(rows, x)
  {
    hide FriendsOf;
    var m := if place <= |rows| then place else |rows|;
    var a, b := FriendsOf(rows[..m], x), FriendsOf(rows[m..], x);
    FriendsConcat(rows[..m] + [r], rows[m..], x);
    FriendsConcat(rows[..m], rows[m..], x);
    FriendsAppend(rows[..m], r, x);
    assert rows == rows[..m] + rows[m..];
    assert (a + b)[..|a|] == a && (a + b)[|a|..] == b;
  }

  /** After an addition each of the two has the other in the list, beside those that were there, in their
      order; when the second insertion failed, only the user has.  Who adds himself has himself twice. */
  lemma AddLists(rows: seq<Row>, e: Event, x: int)
    requires e.AddFriend? && (AddCode(rows, e) == Ok || HalfAdded(rows, e))
    ensures var u, f := Wrap(e.user), Wrap(e.friend);
            var list', list := FriendsOf(RowsAfterAdd(rows, e), x), FriendsOf(rows, x);
            if x == u == f && AddCode(rows, e) == Ok then
              exists once :: OneMore(once, list, f) && OneMore(list', once, f)
            else if x == u then OneMore(list', list, f)
            else if x == f && AddCode(rows, e) == Ok then OneMore(list', list, u)
            else list' == list
  {
    hide Wrap, FriendsOf, Inserted, OneMore;
    var u, f := Wrap(e.user), Wrap(e.friend);
    FriendsWithNew(rows, Row(u, f), e.places.0, x);
    FriendsWithNew(Inserted(rows, Row(u, f), e.places.0), Row(f, u), e.places.1, x);
  }

  lemma ListChanges(rows: seq<Row>, e: Event, x: int)
    requires e.AddFriend? || e.RemoveFriend?
    ensures FriendsOf(After(State(rows, map[]), e).rows, x) != FriendsOf(rows, x) <==> x in Changed(rows, e)
  {
    hide FriendsOf, RowsAfterAdd, RowsAfterRemove, Lengthened, Shortened, Key, Print;
    if e.AddFriend? { AddChanges(rows, e, x); } else { RemoveChanges(rows, e, x); }
  }

  lemma {:induction false} IdsFit(rows: seq<Row>, x: int)
    requires Columns(rows)
    ensures forall f :: f in FriendsOf(rows, x) ==> Is64(f)
  {
    forall f | f in FriendsOf(rows, x) ensures Is64(f) {
      FriendsInTable(rows, x, f);
    }
  }

  // ---- The cache after a change ----

  /** The identifiers whose cached list a call drops. */
  function Cleared(s: State, e: Event): set<int> {
    if e.AddFriend? && AddCode(s.rows, e) == Ok && e.redis then {e.user, e.friend}
    else if e.RemoveFriend? && e.first && e.second && e.redis then {e.user, e.friend} else {}
  }

  lemma GotAfterChange(s: State, e: Event, v: int)
    requires (e.AddFriend? || e.RemoveFriend?) && Is64(e.user) && Is64(e.friend) && Is64(v)
    ensures Got(After(s, e).redis, Key(v)) == if v in Cleared(s, e) then "" else Got(s.redis, Key(v))
  {
    hide Key, Print, Is64, RowsAfterAdd, RowsAfterRemove, AddCode;
    if Key(v) == Key(e.user) { KeyInjective(v, e.user); }
    if Key(v) == Key(e.friend) { KeyInjective(v, e.friend); }
  }

  lemma ListedInjective(a: seq<int>, b: seq<int>)
    requires a != [] && b != [] && Listed(a) == Listed(b)
    requires (forall id :: id in a ==> Is64(id)) && (forall id :: id in b ==> Is64(id))
    ensures a == b
  {
    hide Listed, ReadList;
    ListRoundTrip(a);
    ListRoundTrip(b);
  }

  /** The identifiers whose list a call changes without dropping it from the cache: another identifier
      with the same low 32 bits, one whose second statement failed, or one that Redis did not serve. */
  ghost predicate Stale(s: State, e: Event, v: int) {
    Wrap(v) in Changed(s.rows, e) && v !in Cleared(s, e)
  }

  /** A change of the table keeps the cache coherent exactly when nothing is cached for those. */
  lemma ChangeKeepsExactly(s: State, e: Event)
    requires e.AddFriend? || e.RemoveFriend?
    requires Is64(e.user) && Is64(e.friend) && Coherent(s) && Columns(s.rows)
    ensures Coherent(After(s, e)) <==> forall v :: Is64(v) && Stale(s, e, v) ==> Got(s.redis, Key(v)) == ""
  {
    hide Key, Got, Listed, Is64, After, Wrap, FriendsOf, Cleared, Columns, Changed;
    ColumnsStep(s, e);
    SameRows(s, e);
    forall v | Is64(v) ensures CachedRight(After(s, e), v) <==> (Stale(s, e, v) ==> Got(s.redis, Key(v)) == "") {
      assert CachedRight(s, v);
      GotAfterChange(s, e, v);
      var list, list' := FriendsOf(s.rows, Wrap(v)), FriendsOf(After(s, e).rows, Wrap(v));
      ListChanges(s.rows, e, Wrap(v));
      IdsFit(s.rows, Wrap(v));
      IdsFit(After(s, e).rows, Wrap(v));
      if list != [] && list' != [] && Listed(list) == Listed(list') {
        ListedInjective(list, list');
      }
    }
  }

  /** The table after a call does not depend on the cache. */
  lemma SameRows(s: State, e: Event)
    ensures After(State(s.rows, map[]), e).rows == After(s, e).rows
  {
    hide RowsAfterAdd, RowsAfterRemove, Key, Print;
  }

  lemma ColumnsStep(s: State, e: Event)
    requires Columns(s.rows)
    ensures Columns(After(s, e).rows)
  {
    hide Key, Listed, Print, Inserted;
    if e.AddFriend? {
      var u, f := Wrap(e.user), Wrap(e.friend);
      FriendsInsert(s.rows, Row(u, f), e.places.0, 0);
      FriendsInsert(Inserted(s.rows, Row(u, f), e.places.0), Row(f, u), e.places.1, 0);
    } else if e.RemoveFriend? {
      var u, f := Wrap(e.user), Wrap(e.friend);
      forall r ensures r in Without(s.rows, Row(u, f)) ==> r in s.rows {
        WithoutRow(s.rows, Row(u, f), r);
      }
      forall r ensures r in Without(Without(s.rows, Row(u, f)), Row(f, u)) ==> r in s.rows {
        WithoutRow(Without(s.rows, Row(u, f)), Row(f, u), r);
      }
    }
  }

  /** Filling the cache from the table, or answering from it, keeps it coherent. */
  lemma GetKeeps(s: State, e: Event)
    requires e.GetFriends? && Is64(e.user) && Coherent(s)
    ensures Coherent(After(s, e))
  {
    hide Key, Listed, Is64, Wrap, FriendsOf;
    forall v | Is64(v) ensures CachedRight(After(s, e), v) {
      assert CachedRight(s, v);
      if Key(v) == Key(e.user) { KeyInjective(v, e.user); }
    }
  }

  /** A list that was answered from the table and is not empty, or was cached before, is answered again when
      the database is down; an empty one is not. */
  lemma GetCaches(s: State, v: int, asked: bool)
    requires Columns(s.rows)
    ensures var s' := After(s, GetFriends(v, asked, true));
            FriendIds(s', GetFriends(v, false, true))
            == if Got(s.redis, Key(v)) != "" || (asked && FriendsOf(s.rows, Wrap(v)) != [])
               then FriendIds(s, GetFriends(v, asked, true)) else None
  {
    hide Key, Listed, ReadList, FriendsOf, Wrap, Columns;
    IdsFit(s.rows, Wrap(v));
    if FriendsOf(s.rows, Wrap(v)) != [] { ListRoundTrip(FriendsOf(s.rows, Wrap(v))); }
  }

  lemma ExpireKeeps(s: State, e: Event)
    requires e.Expire? && Coherent(s)
    ensures Coherent(After(s, e))
  {
    hide Key, Listed, Is64, Wrap, FriendsOf;
    forall v | Is64(v) ensures CachedRight(After(s, e), v) {
      assert CachedRight(s, v);
    }
  }

  /** Once the key has expired, the next answer is the table's, whatever was cached before. */
  lemma ExpiryHeals(s: State, v: int)
    ensures FriendIds(After(s, Expire(Key(v))), GetFriends(v, true, true)) == Some(FriendsOf(s.rows, Wrap(v)))
    ensures forall key :: key != Key(v) ==> Got(After(s, Expire(Key(v))).redis, key) == Got(s.redis, key)
  {
    hide Key, Wrap, FriendsOf, ReadList;
  }

  // ---- Over whole runs ----

  ghost predicate OnlyNarrowCached(s: State) {
    forall v :: Is64(v) && !Is32(v) ==> Got(s.redis, Key(v)) == ""
  }

  lemma NarrowSame(v: int)
    requires Is32(v)
    ensures Wrap(v) == v && Is64(v)
  {
    WrapFits(v);
  }

  lemma NarrowCachedStep(s: State, e: Event)
    requires Sound(e) && OnlyNarrowCached(s)
    ensures OnlyNarrowCached(After(s, e))
  {
    forall v | Is64(v) && !Is32(v) ensures Got(After(s, e).redis, Key(v)) == "" {
      hide Key, Listed, Print, RowsAfterAdd, RowsAfterRemove, AddCode, FriendsOf, Cleared;
      if e.AddFriend? || e.RemoveFriend? {
        GotAfterChange(s, e, v);
      } else if e.GetFriends? && Key(v) == Key(e.user) {
        KeyInjective(v, e.user);
      }
    }
  }

  lemma NothingStale(s: State, e: Event, v: int)
    requires Sound(e) && (e.AddFriend? || e.RemoveFriend?) && Is32(v)
    ensures !Stale(s, e, v)
  {
    NarrowSame(v);
    NarrowSame(e.user);
    NarrowSame(e.friend);
    if e.AddFriend? { AddAllOrNothing(s.rows, e); }
  }

  lemma AddAllOrNothing(rows: seq<Row>, e: Event)
    requires e.AddFriend? && BothOrNeither(e)
    ensures AddCode(rows, e) != Ok ==> !HalfAdded(rows, e) && RowsAfterAdd(rows, e) == rows
    ensures AddCode(rows, e) == Ok ==> e.first
  {
  }

  lemma CoherentStep(s: State, e: Event)
    requires Sound(e) && Coherent(s) && Columns(s.rows) && OnlyNarrowCached(s)
    ensures Coherent(After(s, e))
  {
    hide Coherent, Columns, After, Key, Got, Stale;
    match e
    case AddFriend(_, _, _, _, _, _, _, _) => ChangeStep(s, e);
    case RemoveFriend(_, _, _, _, _) => ChangeStep(s, e);
    case GetFriends(_, _, _) => GetKeeps(s, e);
    case Expire(_) => ExpireKeeps(s, e);
  }

  lemma ChangeStep(s: State, e: Event)
    requires Sound(e) && (e.AddFriend? || e.RemoveFriend?) && Coherent(s) && Columns(s.rows) && OnlyNarrowCached(s)
    ensures Coherent(After(s, e))
  {
    hide Coherent, Columns, After, Key, Got, Stale;
    ChangeKeepsExactly(s, e);
    forall v | Is64(v) && Stale(s, e, v) ensures Got(s.redis, Key(v)) == "" {
      if Is32(v) { NothingStale(s, e, v); }
    }
  }

  lemma {:induction false} RunCoherent(rows: seq<Row>, events: seq<Event>)
    requires Columns(rows) && forall e :: e in events ==> Sound(e)
    ensures Coherent(Run(rows, events)) && Columns(Run(rows, events).rows) && OnlyNarrowCached(Run(rows, events))
  {
    hide Columns, Sound, After;
    if |events| > 0 {
      hide Coherent, OnlyNarrowCached;
      var before, e := Run(rows, events[..|events| - 1]), events[|events| - 1];
      RunCoherent(rows, events[..|events| - 1]);
      CoherentStep(before, e);
      ColumnsStep(before, e);
      NarrowCachedStep(before, e);
    }
  }

  /** Over every run of sound calls and expiries, what `GetFriends` answers, from the cache or not, is the
      list of the table, in its order; it answers whenever the list is cached or the query succeeds. */
  lemma GetFriendsExact(rows: seq<Row>, events: seq<Event>, e: Event)
    requires Columns(rows) && forall x :: x in events ==> Sound(x)
    requires e.GetFriends? && Sound(e)
    ensures var s := Run(rows, events);
            FriendIds(s, e) == if e.asked || (e.redis && Got(s.redis, Key(e.user)) != "")
                               then Some(FriendsOf(s.rows, e.user)) else None
  {
    hide Run, Key, Listed, ReadList, Print, Got, FriendsOf, Columns;
    var s := Run(rows, events);
    RunCoherent(rows, events);
    NarrowSame(e.user);
    assert CachedRight(s, e.user);
    IdsFit(s.rows, e.user);
    if FriendsOf(s.rows, e.user) != [] { ListRoundTrip(FriendsOf(s.rows, e.user)); }
  }

  lemma SymmetricStep(s: State, e: Event)
    requires BothOrNeither(e) && Symmetric(s.rows)
    ensures Symmetric(After(s, e).rows)
  {
    hide Key, Listed, Print, Wrap;
    if e.AddFriend? {
      hide Inserted;
      AddAllOrNothing(s.rows, e);
      var u, f := Wrap(e.user), Wrap(e.friend);
      FriendsInsert(s.rows, Row(u, f), e.places.0, 0);
      FriendsInsert(Inserted(s.rows, Row(u, f), e.places.0), Row(f, u), e.places.1, 0);
    } else if e.RemoveFriend? {
      var u, f := Wrap(e.user), Wrap(e.friend);
      var once := Without(s.rows, Row(u, f));
      forall r ensures r in Without(once, Row(f, u)) <==> r in s.rows && r != Row(u, f) && r != Row(f, u) {
        WithoutRow(s.rows, Row(u, f), r);
        WithoutRow(once, Row(f, u), r);
      }
    }
  }

  /** The friend relation stays symmetric, whatever the identifiers and whatever Redis does. */
  lemma {:induction false} StaysSymmetric(rows: seq<Row>, events: seq<Event>)
    requires Symmetric(rows) && forall e :: e in events ==> BothOrNeither(e)
    ensures Symmetric(Run(rows, events).rows)
  {
    if |events| > 0 {
      hide Symmetric, BothOrNeither, After;
      StaysSymmetric(rows, events[..|events| - 1]);
      SymmetricStep(Run(rows, events[..|events| - 1]), events[|events| - 1]);
    }
  }

  /** When only the first insertion succeeds, the relation stays symmetric exactly when the other row was
      there already or is the same row. */
  lemma HalfAddExactly(rows: seq<Row>, e: Event)
    requires Symmetric(rows) && e.AddFriend? && HalfAdded(rows, e)
    ensures Symmetric(RowsAfterAdd(rows, e))
            <==> Wrap(e.user) == Wrap(e.friend) || Row(Wrap(e.friend), Wrap(e.user)) in rows
  {
    hide Wrap, Inserted;
    var u, f := Wrap(e.user), Wrap(e.friend);
    FriendsInsert(rows, Row(u, f), e.places.0, 0);
  }

  /** When only the first deletion succeeds, it stays symmetric exactly when there was no such row or both
      rows are the same. */
  lemma HalfRemoveExactly(rows: seq<Row>, e: Event)
    requires Symmetric(rows) && e.RemoveFriend? && e.first && !e.second
    ensures Symmetric(RowsAfterRemove(rows, e))
            <==> Wrap(e.user) == Wrap(e.friend) || Row(Wrap(e.user), Wrap(e.friend)) !in rows
  {
    hide Wrap, Without;
    var u, f := Wrap(e.user), Wrap(e.friend);
    forall r ensures r in Without(rows, Row(u, f)) <==> r in rows && r != Row(u, f) {
      WithoutRow(rows, Row(u, f), r);
    }
  }

  // ---- Calls that are not atomic ----

  /** A `GetFriends` may read the table, see another call change the list and drop it from the cache, and
      only then store what it read.  From then on the answer is right exactly when that list is not among
      those the other call changes. */
  lemma LateFillExactly(s: State, e: Event, v: int)
    requires (e.AddFriend? || e.RemoveFriend?) && Columns(s.rows)
    requires FriendsOf(s.rows, Wrap(v)) != []
    ensures var read := FriendsOf(s.rows, Wrap(v));
            var after := After(s, e);
            var filled := after.(redis := after.redis[Key(v) := Text(Listed(read))]);
            FriendIds(filled, GetFriends(v, true, true)) == Some(FriendsOf(filled.rows, Wrap(v)))
            <==> Wrap(v) !in Changed(s.rows, e)
  {
    hide Key, Listed, ReadList, Wrap, FriendsOf, Changed, Columns, RowsAfterAdd, RowsAfterRemove, RedisAfterAdd,
         RedisAfterRemove;
    IdsFit(s.rows, Wrap(v));
    ListRoundTrip(FriendsOf(s.rows, Wrap(v)));
    ListChanges(s.rows, e, Wrap(v));
    SameRows(s, e);
  }

  // ---- The cached record of a user ----

  function SerializeUser(id: int, name: string): string {
    Print(id) + ":" + name
  }

  /** The number before the first colon, or 0 when there is none. */
  function DeserializeUser(data: string): int {
    var pos := Find(data, ':');
    if pos.None? then 0
    else
      var id := Stoll(data[..pos.value]);
      if id.None? then 0 else id.value
  }

  /** The identifier comes back for every name, colons in it or not, and the name stands behind the first
      colon. */
  lemma UserRoundTrip(id: int, name: string)
    requires Is64(id)
    ensures DeserializeUser(SerializeUser(id, name)) == id
    ensures var data := SerializeUser(id, name);
            var colon := Find(data, ':');
            colon.Some? && data[colon.value + 1..] == name
  {
    hide Find, Print, Stoll;
    FindFirst(Print(id), ':', name);
    assert (Print(id) + [':'] + name)[..|Print(id)|] == Print(id);
    assert (Print(id) + [':'] + name)[|Print(id)| + 1..] == name;
    StollOfPrint(id);
  }
}
