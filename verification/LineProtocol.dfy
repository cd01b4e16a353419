/** The line protocol: the client prints commands, the gateway cuts lines off its buffer and parses them. */
module LineProtocol {
  import opened Chunks
  import opened Sockets
  import opened Strings
  import opened Wrappers

  // ---- Lines ----

  /** A line without one trailing carriage return. */
  function Stripped(line: string): string {
    if line != "" && line[|line| - 1] == '\r' then line[..|line| - 1] else line
  }

  datatype Cut = Cut(lines: seq<string>, rest: string)

  /** The complete lines of a buffer, and the piece after the last newline. */
  function Lines(b: string): Cut
    decreases |b|
  {
    var p := Find(b, '\n');
    if p.None? then Cut([], b) else After([Stripped(b[..p.value])], Lines(b[p.value + 1..]))
  }

  function After(earlier: seq<string>, c: Cut): Cut {
    c.(lines := earlier + c.lines)
  }

  /** Text that follows is cut from what the text before it left. */
  lemma {:induction false} LinesSplit(a: string, b: string)
    ensures Lines(a + b) == After(Lines(a).lines, Lines(Lines(a).rest + b))
    decreases |a|
  {
    hide Find, Stripped, Lines;
    var p := Find(a, '\n');
    if p.None? {
      LinesNone(a);
    } else {
      var first, rest := a[..p.value], a[p.value + 1..];
      assert a == first + "\n" + rest;
      assert a + b == first + "\n" + (rest + b);
      LinesOne(first, rest);
      LinesOne(first, rest + b);
      LinesSplit(rest, b);
      AfterTwice([Stripped(first)], Lines(rest).lines, Lines(Lines(rest).rest + b));
    }
  }

  lemma LinesNone(a: string)
    requires Find(a, '\n').None?
    ensures Lines(a) == Cut([], a)
  {
    hide Find;
  }

  lemma AfterTwice(x: seq<string>, y: seq<string>, c: Cut)
    ensures After(x, After(y, c)) == After(x + y, c)
  {
    assert x + (y + c.lines) == (x + y) + c.lines;
  }

  function Received(chunks: seq<string>): Cut {
    if |chunks| == 0 then Cut([], "")
    else
      var c := Received(chunks[..|chunks| - 1]);
      After(c.lines, Lines(c.rest + chunks[|chunks| - 1]))
  }

  /** However the text is cut into chunks, the same lines come out and the same piece is left. */
  lemma {:induction false} ChunksDoNotMatter(chunks: seq<string>)
    ensures Received(chunks) == Lines(Joined(chunks))
  {
    hide Find;
    if |chunks| > 0 {
      ChunksDoNotMatter(chunks[..|chunks| - 1]);
      LinesSplit(Joined(chunks[..|chunks| - 1]), chunks[|chunks| - 1]);
    }
  }

  lemma LinesOne(line: string, more: string)
    requires '\n' !in line
    ensures Lines(line + "\n" + more) == After([Stripped(line)], Lines(more))
  {
    hide Find, Stripped;
    var b := line + "\n" + more;
    FindFirst(line, '\n', more);
    assert b[..|line|] == line && b[|line| + 1..] == more;
  }

  lemma {:induction false} LinesHaveNoNewline(b: string)
    ensures forall line :: line in Lines(b).lines ==> '\n' !in line
    decreases |b|
  {
    var p := Find(b, '\n');
    if p.Some? {
      LinesHaveNoNewline(b[p.value + 1..]);
    }
  }

  // ---- Parsing ----

  function Upper(c: char): char {
    if 'a' <= c <= 'z' then (c as int - 32) as char else c
  }

  function UpperAll(s: string): string {
    seq(|s|, i requires 0 <= i < |s| => Upper(s[i]))
  }

  datatype Verb = REGISTER | LOGIN | SEND | PULL | LOGOUT | ADDFRIEND | GETFRIENDS | CREATEGROUP | JOINGROUP | SENDGROUP

  function Name(v: Verb): string {
    match v
    case REGISTER => "REGISTER" case LOGIN => "LOGIN" case SEND => "SEND" case PULL => "PULL" case LOGOUT => "LOGOUT"
    case ADDFRIEND => "ADDFRIEND" case GETFRIENDS => "GETFRIENDS" case CREATEGROUP => "CREATEGROUP"
    case JOINGROUP => "JOINGROUP" case SENDGROUP => "SENDGROUP"
  }

  /** How the gateway cuts what follows a command: not at all, in two, or at every space. */
  datatype Kind = Bare | Text | Words

  function KindOf(v: Verb): Kind {
    match v
    case PULL | LOGOUT | GETFRIENDS => Bare
    case SEND | CREATEGROUP | SENDGROUP => Text
    case _ => Words
  }

  function VerbOf(cmd: string): Option<Verb> {
    if cmd == "REGISTER" then Some(REGISTER)
    else if cmd == "LOGIN" then Some(LOGIN)
    else if cmd == "SEND" then Some(SEND)
    else if cmd == "PULL" then Some(PULL)
    else if cmd == "LOGOUT" then Some(LOGOUT)
    else if cmd == "ADDFRIEND" then Some(ADDFRIEND)
    else if cmd == "GETFRIENDS" then Some(GETFRIENDS)
    else if cmd == "CREATEGROUP" then Some(CREATEGROUP)
    else if cmd == "JOINGROUP" then Some(JOINGROUP)
    else if cmd == "SENDGROUP" then Some(SENDGROUP)
    else None
  }

  /** A line as the gateway takes it. */
  datatype Command = Nothing | Unknown | Command(verb: Verb, toks: seq<string>)

  /** `split` cuts at every separator. */
  function SplitAll(s: string, d: char): seq<string> {
    Split(s, d, |s| + 2)
  }

  function Tokens(v: Verb, rest: string): seq<string> {
    match KindOf(v)
    case Bare => []
    case Text => Split(rest, ' ', 2)
    case Words => SplitAll(rest, ' ')
  }

  function Parse(line: string): Command {
    if line == "" then Nothing
    else
      var parts := Split(line, ' ', 2);
      var v := VerbOf(UpperAll(parts[0]));
      if v.None? then Unknown else Command(v.value, Tokens(v.value, if |parts| > 1 then parts[1] else ""))
  }

  function ParseAll(lines: seq<string>): seq<Command> {
    seq(|lines|, i requires 0 <= i < |lines| => Parse(lines[i]))
  }

  /** The loop of `split`, one character at a time. */
  method SplitEverywhere(s: string, d: char) returns (v: seq<string>)
    ensures v == SplitAll(s, d)
  {
    hide Find, Split;
    v := [];
    var cur := "";
    var m := |s| + 2;
    assert cur + s[0..] == s;
    for i := 0 to |s|
      invariant |v| <= i && d !in cur && SplitAll(s, d) == v + Split(cur + s[i..], d, m - |v|)
    {
      var c := s[i];
      assert cur + s[i..] == cur + [c] + s[i + 1..];
      if c == d {
        SplitAtFirst(cur, d, s[i + 1..], m - |v|);
        assert v + ([cur] + Split(s[i + 1..], d, m - |v| - 1)) == (v + [cur]) + Split(s[i + 1..], d, m - |v| - 1);
        v := v + [cur];
        cur := "";
        assert cur + s[i + 1..] == s[i + 1..];
      } else {
        cur := cur + [c];
      }
    }
    assert cur + s[|s|..] == cur;
    SplitNowhere(cur, d, m - |v|);
    v := v + [cur];
  }

  /** The loop of `splitOnce`: searches from `start` on. */
  method SplitOnce(s: string, d: char, maxParts: nat) returns (v: seq<string>)
    ensures v == Split(s, d, maxParts)
  {
    hide Find, Split;
    v := [];
    var start, cnt := 0, 0;
    assert s[0..] == s;
    while cnt + 1 < maxParts
      invariant 0 <= start <= |s| && |v| == cnt && (cnt < maxParts || cnt == 0)
      invariant Split(s, d, maxParts) == v + Split(s[start..], d, maxParts - cnt)
      decreases maxParts - cnt
    {
      var pos := Find(s[start..], d);
      SplitFrom(s, start, d, maxParts - cnt);
      if pos.None? {
        v := v + [s[start..]];
        return;
      }
      ghost var part, later := s[start..start + pos.value], Split(s[start + pos.value + 1..], d, maxParts - cnt - 1);
      assert v + ([part] + later) == (v + [part]) + later;
      v := v + [s[start..start + pos.value]];
      start := start + pos.value + 1;
      cnt := cnt + 1;
    }
    SplitLast(s[start..], d, maxParts - cnt);
    v := v + [s[start..]];
  }

  method ToUpper(s: string) returns (cmd: string)
    ensures cmd == UpperAll(s)
  {
    cmd := "";
    for i := 0 to |s|
      invariant cmd == UpperAll(s)[..i]
    {
      cmd := cmd + [Upper(s[i])];
    }
  }

  // ---- The gateway's side of a connection ----

  class Gateway {
    var buffer: string
    /** The commands of the lines so far. */
    var commands: seq<Command>

    constructor ()
      ensures buffer == "" && commands == []
    {
      buffer, commands := "", [];
    }

    method HandleLine(line: string)
      modifies this`commands
      ensures commands == old(commands) + [Parse(line)]
    {
      hide Split, Name;
      if line == "" {
        commands := commands + [Nothing];
        return;
      }
      var parts := SplitOnce(line, ' ', 2);
      SplitNotEmpty(line, ' ', 2);
      var cmd := ToUpper(parts[0]);
      var rest := if |parts| > 1 then parts[1] else "";
      var verb := VerbOf(cmd);
      if verb.None? {
        commands := commands + [Unknown];
        return;
      }
      var toks: seq<string> := [];
      if KindOf(verb.value) == Text {
        toks := SplitOnce(rest, ' ', 2);
      } else if KindOf(verb.value) == Words {
        toks := SplitEverywhere(rest, ' ');
      }
      assert toks == Tokens(verb.value, rest);
      commands := commands + [Command(verb.value, toks)];
    }

    method OnMessage()
      modifies this
      ensures var c := Lines(old(buffer));
              commands == old(commands) + ParseAll(c.lines) && buffer == c.rest
    {
      hide Find, Stripped, Parse, Lines, After, ParseAll;
      ghost var lines: seq<string> := [];
      AfterNone(Lines(buffer));
      assert ParseAll([]) == [] by { ParseAllNothing(); }
      while true
        invariant Lines(old(buffer)) == After(lines, Lines(buffer)) && commands == old(commands) + ParseAll(lines)
        decreases |buffer|
      {
        var p := Find(buffer, '\n');
        LinesStep(lines, buffer);
        if p.None? { break; }
        var line := buffer[..p.value];
        buffer := buffer[p.value + 1..];
        line := StripReturn(line);
        HandleLine(line);
        ParseAllNext(lines, line);
        lines := lines + [line];
      }
    }
  }

  lemma AfterNone(c: Cut)
    ensures After([], c) == c
  {
  }

  lemma ParseAllNothing()
    ensures ParseAll([]) == []
  {
  }

  /** One turn of either loop. */
  lemma LinesStep(lines: seq<string>, b: string)
    ensures var p := Find(b, '\n');
            After(lines, Lines(b)) == if p.None? then Cut(lines, b)
                                      else After(lines + [Stripped(b[..p.value])], Lines(b[p.value + 1..]))
  {
    hide Find, Stripped;
    var p := Find(b, '\n');
    if p.Some? {
      AfterTwice(lines, [Stripped(b[..p.value])], Lines(b[p.value + 1..]));
    }
  }

  method StripReturn(line: string) returns (r: string)
    ensures r == Stripped(line)
  {
    r := line;
    if line != "" && line[|line| - 1] == '\r' { r := line[..|line| - 1]; }
  }

  /** A frame is complete lines, whatever was to be sent; one line when it held no newline. */
  lemma FrameComplete(line: string)
    ensures Lines(Enqueued(line)).rest == ""
    ensures '\n' !in line ==> Enqueued(line) == line + "\n"
  {
    hide Lines, Find, Stripped;
    var body := if line != "" && line[|line| - 1] == '\n' then line[..|line| - 1] else line;
    assert Enqueued(line) == body + "\n";
    assert line != "" ==> line[|line| - 1] in line;
    var rest := Lines(body).rest;
    RestHasNoNewline(body);
    LinesSplit(body, "\n");
    LinesOne(rest, "");
    LinesNone("");
    assert rest + "\n" + "" == rest + "\n";
  }

  lemma {:induction false} RestHasNoNewline(b: string)
    ensures '\n' !in Lines(b).rest
    decreases |b|
  {
    var p := Find(b, '\n');
    if p.Some? {
      RestHasNoNewline(b[p.value + 1..]);
    }
  }

  lemma SplitNotEmpty(s: string, d: char, max: nat)
    ensures |Split(s, d, max)| > 0
  {
  }

  lemma ParseAllNext(lines: seq<string>, line: string)
    ensures ParseAll(lines + [line]) == ParseAll(lines) + [Parse(line)]
  {
    hide Parse;
  }

  // ---- The client's side ----

  /** What the client's functions can be asked to send. */
  datatype Order =
    | Login(user: string, pwd: string)
    | SendMessage(toUid: string, msg: string)
    | PullOfflineMessages
    | LogOut
    | AddFriend(friendId: string)
    | GetFriends
    | CreateGroup(groupName: string, description: string)
    | JoinGroup(groupId: string)
    | SendGroupMessage(groupId: string, message: string)

  /** The command printed for each. */
  function Print(o: Order): string {
    match o
    case Login(user, pwd) => "LOGIN " + user + " " + pwd
    case SendMessage(toUid, msg) => "SEND " + toUid + " " + msg
    case PullOfflineMessages => "PULL"
    case LogOut => "LOGOUT"
    case AddFriend(friendId) => "ADDFRIEND " + friendId
    case GetFriends => "GETFRIENDS"
    case CreateGroup(groupName, description) => "CREATEGROUP " + groupName + " " + description
    case JoinGroup(groupId) => "JOINGROUP " + groupId
    case SendGroupMessage(groupId, message) => "SENDGROUP " + groupId + " " + message
  }

  /** The command it is meant to be read as. */
  function Meant(o: Order): Command {
    match o
    case Login(user, pwd) => Command(LOGIN, [user, pwd])
    case SendMessage(toUid, msg) => Command(SEND, [toUid, msg])
    case PullOfflineMessages => Command(PULL, [])
    case LogOut => Command(LOGOUT, [])
    case AddFriend(friendId) => Command(ADDFRIEND, [friendId])
    case GetFriends => Command(GETFRIENDS, [])
    case CreateGroup(groupName, description) => Command(CREATEGROUP, [groupName, description])
    case JoinGroup(groupId) => Command(JOINGROUP, [groupId])
    case SendGroupMessage(groupId, message) => Command(SENDGROUP, [groupId, message])
  }

  function MeantAll(os: seq<Order>): seq<Command> {
    seq(|os|, i requires 0 <= i < |os| => Meant(os[i]))
  }

  /** The frame that is queued: the command with a newline, unless it ends with one. */
  function Enqueued(line: string): string {
    if line == "" || line[|line| - 1] != '\n' then line + "\n" else line
  }

  /** The frames of the orders, as they are queued. */
  function FrameList(os: seq<Order>): seq<string> {
    seq(|os|, i requires 0 <= i < |os| => Enqueued(Print(os[i])))
  }

  /** A field that has no space and no newline. */
  predicate Token(s: string) {
    ' ' !in s && '\n' !in s
  }

  /** A text without newline that does not end in a carriage return. */
  predicate Plain(s: string) {
    '\n' !in s && (s == "" || s[|s| - 1] != '\r')
  }

  /** What a caller must see to for the gateway to understand. */
  predicate Clean(o: Order) {
    match o
    case Login(user, pwd) => Token(user) && Token(pwd) && Plain(pwd)
    case SendMessage(toUid, msg) => Token(toUid) && Plain(msg)
    case CreateGroup(groupName, description) => Token(groupName) && Plain(description)
    case SendGroupMessage(groupId, message) => Token(groupId) && Plain(message)
    case AddFriend(friendId) => Token(friendId) && Plain(friendId)
    case JoinGroup(groupId) => Token(groupId) && Plain(groupId)
    case _ => true
  }

  /** The calls made for frame `i` can move all of it before a fatal one. */
  ghost predicate Moved(frames: seq<string>, script: seq<seq<Io>>, i: nat) {
    i < |frames| && i < |script| && Passes(script[i]) >= |frames[i]|
  }

  ghost predicate AllMoved(frames: seq<string>, script: seq<seq<Io>>) {
    |script| >= |frames| && forall i :: 0 <= i < |frames| ==> Moved(frames, script, i)
  }

  /** Frame `k` is the first that is not sent whole, or that no calls were made for, or the end. */
  ghost predicate StopsAt(frames: seq<string>, script: seq<seq<Io>>, k: nat) {
    && k <= |frames| && k <= |script| && (forall i :: 0 <= i < k ==> Moved(frames, script, i))
    && !Moved(frames, script, k)
  }

  class Client {
    var inbuf: string
    /** The lines shown so far. */
    var shown: seq<string>
    var outbox: seq<string>

    constructor ()
      ensures inbuf == "" && shown == [] && outbox == []
    {
      inbuf, shown, outbox := "", [], [];
    }

    method EnqueueRaw(line: string)
      modifies this`outbox
      ensures outbox == old(outbox) + [Enqueued(line)]
      ensures '\n' !in line ==> outbox == old(outbox) + [line + "\n"]
      ensures Lines(outbox[|outbox| - 1]).rest == ""
    {
      hide Lines;
      FrameComplete(line);
      var s := line;
      if s == "" || s[|s| - 1] != '\n' { s := s + ['\n']; }
      outbox := outbox + [s];
    }

    /** Sends frame after frame until the queue is empty or sending fails.  `script` has the calls made for
        each frame; `whole` is how many frames were sent whole. */
    method SendLoop(script: seq<seq<Io>>) returns (done: bool, sent: string, ghost whole: nat)
      modifies this`outbox
      ensures StopsAt(old(outbox), script, whole) && (done <==> whole == |old(outbox)|)
      ensures whole == |old(outbox)| || whole == |script| ==>
                sent == Joined(old(outbox)[..whole]) && outbox == old(outbox)[whole..]
      ensures whole < |old(outbox)| && whole < |script| ==>
                && sent == Joined(old(outbox)[..whole]) + old(outbox)[whole][..Passes(script[whole])]
                && outbox == old(outbox)[whole + 1..]
      ensures AllMoved(old(outbox), script) ==> done && outbox == [] && sent == Joined(old(outbox))
      ensures done ==> outbox == [] && sent == Joined(old(outbox))
      ensures sent <= Joined(old(outbox))
    {
      hide Joined, Passes;
      ghost var all := outbox;
      done, sent, whole := false, "", 0;
      assert all[..|all|] == all && all[..0] == [];
      JoinedNone<char>();
      var n := 0;
      while outbox != [] && n < |script|
        invariant whole == n <= |script| && |outbox| + n == |all| && outbox == all[n..] && sent == Joined(all[..n])
        invariant forall i :: 0 <= i < n ==> Moved(all, script, i)
      {
        var frame := outbox[0];
        var outcome, part, used := SendAll(frame, script[n]);
        JoinedNext(all, n);
        outbox := outbox[1..];
        sent := sent + part;
        if !outcome.Done? {
          JoinedPrefix(all, n + 1);
          assert !Moved(all, script, n);
          return;
        }
        assert part == frame;
        n, whole := n + 1, whole + 1;
      }
      JoinedPrefix(all, n);
      done := outbox == [];
    }

    /** The loop over what one `recv` gave. */
    method ReadTask(data: string)
      modifies this
      ensures var c := Lines(old(inbuf) + data);
              shown == old(shown) + c.lines && inbuf == c.rest
    {
      hide Find, Stripped, Lines, After;
      inbuf := inbuf + data;
      ghost var all, lines: seq<string> := inbuf, [];
      AfterNone(Lines(all));
      while true
        invariant Lines(all) == After(lines, Lines(inbuf)) && shown == old(shown) + lines
        decreases |inbuf|
      {
        var pos := Find(inbuf, '\n');
        LinesStep(lines, inbuf);
        if pos.None? { break; }
        var line := inbuf[..pos.value];
        inbuf := inbuf[pos.value + 1..];
        line := StripReturn(line);
        shown := shown + [line];
        lines := lines + [line];
      }
    }
  }

  // ---- The two together ----

  function VerbIn(o: Order): Verb {
    match o
    case Login(_, _) => LOGIN
    case SendMessage(_, _) => SEND
    case PullOfflineMessages => PULL
    case LogOut => LOGOUT
    case AddFriend(_) => ADDFRIEND
    case GetFriends => GETFRIENDS
    case CreateGroup(_, _) => CREATEGROUP
    case JoinGroup(_) => JOINGROUP
    case SendGroupMessage(_, _) => SENDGROUP
  }

  function Fields(o: Order): seq<string> {
    Meant(o).toks
  }

  /** A command with its fields, in the one form all printed commands have. */
  function Printed(v: Verb, fields: seq<string>): string {
    if fields == [] then Name(v) else Name(v) + " " + Join(fields, ' ')
  }

  /** The number of fields is the command's, and those that the gateway cuts at spaces have none. */
  ghost predicate Spaced(v: Verb, fields: seq<string>) {
    match KindOf(v)
    case Bare => fields == []
    case Text => |fields| == 2 && ' ' !in fields[0]
    case Words => |fields| > 0 && forall f :: f in fields ==> ' ' !in f
  }

  lemma PrintForm(o: Order)
    ensures Print(o) == Printed(VerbIn(o), Fields(o)) && Meant(o) == Command(VerbIn(o), Fields(o))
  {
    hide KindOf;
    match o
    case Login(user, pwd) =>
      JoinTwo(user, pwd);
      assert "LOGIN " + user + " " + pwd == "LOGIN" + " " + (user + " " + pwd);
    case SendMessage(to, msg) =>
      JoinTwo(to, msg);
      assert "SEND " + to + " " + msg == "SEND" + " " + (to + " " + msg);
    case CreateGroup(name, description) =>
      JoinTwo(name, description);
      assert "CREATEGROUP " + name + " " + description == "CREATEGROUP" + " " + (name + " " + description);
    case SendGroupMessage(id, message) =>
      JoinTwo(id, message);
      assert "SENDGROUP " + id + " " + message == "SENDGROUP" + " " + (id + " " + message);
    case _ =>
  }

  lemma JoinTwo(a: string, b: string)
    ensures Join([a, b], ' ') == a + " " + b
  {
    assert [a, b][1..] == [b];
  }

  lemma {:induction false} JoinLength(parts: seq<string>, d: char)
    ensures |Join(parts, d)| >= |parts| - 1
  {
    if |parts| > 1 {
      JoinLength(parts[1..], d);
    }
  }

  /** The same letters, each of them upper or lower case, for a text of upper-case letters. */
  ghost predicate SameLetters(s: string, upper: string) {
    |s| == |upper| && forall i :: 0 <= i < |s| ==> SameLetter(s[i], upper[i])
  }

  ghost predicate SameLetter(c: char, upper: char) {
    c == upper || c as int == upper as int + ('a' as int - 'A' as int)
  }

  lemma NameLetters(v: Verb)
    ensures forall i :: 0 <= i < |Name(v)| ==> 'A' <= Name(v)[i] <= 'Z'
    ensures Name(v) != "" && VerbOf(Name(v)) == Some(v)
  {
  }

  lemma UpperLetter(c: char, upper: char)
    requires 'A' <= upper <= 'Z'
    ensures Upper(c) == upper <==> SameLetter(c, upper)
    ensures SameLetter(c, upper) ==> c != ' '
  {
  }

  lemma VerbNamed(cmd: string, v: Verb)
    requires VerbOf(cmd) == Some(v)
    ensures cmd == Name(v)
  {
  }

  /** A word is taken as a verb exactly when it has the letters of its name, in whatever case. */
  lemma VerbInAnyCase(word: string, v: Verb)
    ensures VerbOf(UpperAll(word)) == Some(v) <==> SameLetters(word, Name(v))
    ensures SameLetters(word, Name(v)) ==> ' ' !in word && word != ""
  {
    hide VerbOf, Name, Upper, SameLetter;
    NameLetters(v);
    if VerbOf(UpperAll(word)) == Some(v) { VerbNamed(UpperAll(word), v); }
    forall i | 0 <= i < |word| && i < |Name(v)|
      ensures Upper(word[i]) == Name(v)[i] <==> SameLetter(word[i], Name(v)[i])
      ensures SameLetter(word[i], Name(v)[i]) ==> word[i] != ' '
    {
      UpperLetter(word[i], Name(v)[i]);
    }
    if SameLetters(word, Name(v)) {
      assert UpperAll(word) == Name(v);
    }
  }

  /** Whatever its fields hold otherwise, a command whose fields are spaced parses to itself, in whatever
      case its verb is written. */
  lemma ParseAnyCase(word: string, v: Verb, fields: seq<string>)
    requires SameLetters(word, Name(v)) && Spaced(v, fields)
    ensures Parse(if fields == [] then word else word + " " + Join(fields, ' ')) == Command(v, fields)
  {
    hide Find, Split, Join, VerbOf, UpperAll, Name, SameLetters;
    VerbInAnyCase(word, v);
    if KindOf(v) == Bare {
      SplitNowhere(word, ' ', 2);
    } else {
      var rest := Join(fields, ' ');
      SplitAtFirst(word, ' ', rest, 2);
      SplitLast(rest, ' ', 1);
      assert word + " " + rest == word + [' '] + rest;
      JoinLength(fields, ' ');
      SplitJoined(fields, ' ', if KindOf(v) == Text then 2 else |rest| + 2);
    }
  }

  /** A line is unknown exactly when its first word has the letters of no verb. */
  lemma UnknownExactly(word: string, rest: string)
    requires ' ' !in word
    ensures Parse(word + " " + rest).Unknown? <==> forall v :: !SameLetters(word, Name(v))
    ensures word != "" ==> (Parse(word).Unknown? <==> forall v :: !SameLetters(word, Name(v)))
  {
    hide Find, Split, VerbOf, UpperAll, Name, SameLetters;
    SplitAtFirst(word, ' ', rest, 2);
    SplitNowhere(word, ' ', 2);
    assert word + " " + rest == word + [' '] + rest;
    forall v ensures VerbOf(UpperAll(word)) == Some(v) <==> SameLetters(word, Name(v)) {
      VerbInAnyCase(word, v);
    }
  }

  /** What the client prints is such a command. */
  lemma ParsePrinted(v: Verb, fields: seq<string>)
    requires Spaced(v, fields)
    ensures Parse(Printed(v, fields)) == Command(v, fields)
  {
    hide Parse, Name, Spaced, Join;
    ParseAnyCase(Name(v), v, fields);
  }

  ghost predicate NoNewline(fields: seq<string>) {
    forall f :: f in fields ==> '\n' !in f
  }

  lemma {:induction false} PartOfJoin(parts: seq<string>, d: char, c: char)
    requires c !in Join(parts, d)
    ensures forall part :: part in parts ==> c !in part
  {
    if |parts| > 1 {
      var rest := Join(parts[1..], d);
      assert forall x :: x in rest ==> x in Join(parts, d);
      PartOfJoin(parts[1..], d, c);
      assert forall part :: part in parts ==> part == parts[0] || part in parts[1..];
    }
  }

  lemma {:induction false} JoinFree(parts: seq<string>, d: char, c: char)
    requires c != d && forall part :: part in parts ==> c !in part
    ensures c !in Join(parts, d)
  {
    if |parts| > 1 {
      JoinFree(parts[1..], d, c);
    }
  }

  lemma SplitFree(s: string, d: char, max: nat, c: char)
    requires c !in s
    ensures forall part :: part in Split(s, d, max) ==> c !in part
  {
    hide Find, Split, Join;
    SplitMeaning(s, d, max);
    PartOfJoin(Split(s, d, max), d, c);
  }

  /** What parsing can give at all: no token holds a newline, and those cut at spaces hold none. */
  lemma ParseGives(line: string)
    requires '\n' !in line && Parse(line).Command?
    ensures NoNewline(Parse(line).toks)
    ensures KindOf(Parse(line).verb) == Text && |Parse(line).toks| == 2 ==> ' ' !in Parse(line).toks[0]
    ensures KindOf(Parse(line).verb) == Words ==> forall tok :: tok in Parse(line).toks ==> ' ' !in tok
  {
    hide Find, Split, Join, VerbOf, UpperAll;
    SplitNotEmpty(line, ' ', 2);
    var parts := Split(line, ' ', 2);
    SplitFree(line, ' ', 2, '\n');
    var rest := if |parts| > 1 then parts[1] else "";
    SplitFree(rest, ' ', 2, '\n');
    SplitFree(rest, ' ', |rest| + 2, '\n');
    SplitMeaning(rest, ' ', 2);
    SplitMeaning(rest, ' ', |rest| + 2);
    JoinLength(SplitAll(rest, ' '), ' ');
    EveryPart(SplitAll(rest, ' '), ' ', |rest| + 2);
  }

  lemma EveryPart(parts: seq<string>, d: char, max: nat)
    requires Parts(parts, d, max) && |parts| < max
    ensures forall part :: part in parts ==> d !in part
  {
  }

  /** An order that some line is parsed as has spaced fields without newlines. */
  lemma MeantIsSpaced(o: Order, line: string)
    requires '\n' !in line && Parse(line) == Meant(o)
    ensures NoNewline(Fields(o)) && Spaced(VerbIn(o), Fields(o))
  {
    hide Parse, Print, Printed, Name, NoNewline;
    PrintForm(o);
    ParseGives(line);
    FieldCount(o);
  }

  lemma FieldCount(o: Order)
    ensures match KindOf(VerbIn(o))
            case Bare => Fields(o) == []
            case Text => |Fields(o)| == 2
            case Words => |Fields(o)| > 0
  {
  }

  lemma CleanForm(o: Order)
    ensures Clean(o) <==> && NoNewline(Fields(o)) && Spaced(VerbIn(o), Fields(o))
                          && (Fields(o) != [] ==> Plain(Fields(o)[|Fields(o)| - 1]))
  {
  }

  lemma PrintHasNoNewline(o: Order)
    requires NoNewline(Fields(o))
    ensures '\n' !in Print(o)
  {
    hide Join, Print, NoNewline;
    PrintForm(o);
    NoNewlineMeans(Fields(o));
    JoinFree(Fields(o), ' ', '\n');
    assert '\n' !in Name(VerbIn(o));
  }

  lemma NoNewlineMeans(fields: seq<string>)
    ensures NoNewline(fields) ==> forall f :: f in fields ==> '\n' !in f
  {
  }

  // ---- The last character ----

  /** Fields whose last has lost a trailing carriage return. */
  function Shorter(fields: seq<string>): seq<string> {
    if fields == [] then [] else fields[|fields| - 1 := Stripped(fields[|fields| - 1])]
  }

  lemma StrippedEnd(before: string, text: string)
    requires before != "" && before[|before| - 1] != '\r'
    ensures Stripped(before + text) == before + Stripped(text)
  {
    if text == "" {
      assert before + text == before;
    }
  }

  lemma {:induction false} JoinStripped(fields: seq<string>, d: char)
    requires fields != [] && d != '\r'
    ensures Stripped(Join(fields, d)) == Join(Shorter(fields), d)
  {
    if |fields| > 1 {
      hide Stripped;
      JoinStripped(fields[1..], d);
      assert Shorter(fields)[1..] == Shorter(fields[1..]);
      StrippedEnd(fields[0] + [d], Join(fields[1..], d));
    }
  }

  lemma StrippedPrint(v: Verb, fields: seq<string>)
    ensures Stripped(Printed(v, fields)) == Printed(v, Shorter(fields))
  {
    hide Join;
    if fields == [] {
      assert Name(v)[|Name(v)| - 1] != '\r';
    } else {
      hide Name, Stripped;
      JoinStripped(fields, ' ');
      StrippedEnd(Name(v) + " ", Join(fields, ' '));
    }
  }

  lemma ShorterKeeps(v: Verb, fields: seq<string>)
    requires Spaced(v, fields)
    ensures Spaced(v, Shorter(fields))
    ensures Shorter(fields) == fields <==> (fields != [] ==> !EndsInReturn(fields[|fields| - 1]))
  {
    if fields != [] {
      var last := fields[|fields| - 1];
      assert Shorter(fields)[|fields| - 1] == Stripped(last);
      assert forall c :: c in Stripped(last) ==> c in last;
      assert forall f :: f in Shorter(fields) ==> f == Stripped(last) || f in fields;
    }
  }

  predicate EndsInReturn(s: string) {
    s != "" && s[|s| - 1] == '\r'
  }

  /** A printed line that holds no newline is understood exactly when the order is clean. */
  lemma LineUnderstood(o: Order)
    requires NoNewline(Fields(o)) && Spaced(VerbIn(o), Fields(o))
    ensures Parse(Stripped(Print(o))) == Meant(o) <==> Clean(o)
  {
    hide Parse, Printed, Print, Spaced, Clean, Shorter;
    PrintForm(o);
    CleanForm(o);
    StrippedPrint(VerbIn(o), Fields(o));
    ShorterKeeps(VerbIn(o), Fields(o));
    ParsePrinted(VerbIn(o), Shorter(Fields(o)));
    LastPlain(Fields(o));
  }

  lemma LastPlain(fields: seq<string>)
    requires NoNewline(fields)
    ensures fields != [] ==> (Plain(fields[|fields| - 1]) <==> !EndsInReturn(fields[|fields| - 1]))
  {
  }

  // ---- The queue ----

  function StrippedPrints(os: seq<Order>): seq<string> {
    seq(|os|, i requires 0 <= i < |os| => Stripped(Print(os[i])))
  }

  /** Frames without inner newlines are cut into the printed lines. */
  lemma {:induction false} FramesCut(os: seq<Order>)
    requires forall o :: o in os ==> '\n' !in Print(o)
    ensures Lines(Joined(FrameList(os))) == Cut(StrippedPrints(os), "")
  {
    hide Print, Stripped, Lines;
    if |os| == 0 {
      LinesNone("");
    } else {
      var before, o := os[..|os| - 1], os[|os| - 1];
      FramesCut(before);
      assert FrameList(os)[..|os| - 1] == FrameList(before);
      EnqueuedLine(Print(o));
      LinesSplit(Joined(FrameList(before)), Print(o) + "\n");
      LinesOne(Print(o), "");
      LinesNone("");
      assert Print(o) + "\n" + "" == "" + (Print(o) + "\n");
      assert StrippedPrints(os) == StrippedPrints(before) + [Stripped(Print(o))];
    }
  }

  lemma EnqueuedLine(line: string)
    requires '\n' !in line
    ensures Enqueued(line) == line + "\n"
  {
    assert line != "" ==> line[|line| - 1] in line;
  }

  /** The gateway takes the whole queue as it was meant, and nothing is left. */
  ghost predicate Understood(os: seq<Order>) {
    var c := Lines(Joined(FrameList(os)));
    ParseAll(c.lines) == MeantAll(os) && c.rest == ""
  }

  /** A queue of any orders is understood exactly when each of its orders is clean. */
  lemma QueueUnderstood(os: seq<Order>)
    ensures Understood(os) <==> forall o :: o in os ==> Clean(o)
  {
    hide Parse, Print, Stripped, Lines, Clean, NoNewline, Spaced, Fields, Meant, Joined, FrameList;
    if forall o :: o in os ==> Clean(o) {
      forall i | 0 <= i < |os| ensures '\n' !in Print(os[i]) && Parse(Stripped(Print(os[i]))) == Meant(os[i]) {
        CleanForm(os[i]);
        PrintHasNoNewline(os[i]);
        LineUnderstood(os[i]);
      }
      FramesCut(os);
    } else if Understood(os) {
      var lines := Lines(Joined(FrameList(os))).lines;
      LinesHaveNoNewline(Joined(FrameList(os)));
      forall i | 0 <= i < |os|
        ensures NoNewline(Fields(os[i])) && Spaced(VerbIn(os[i]), Fields(os[i])) && '\n' !in Print(os[i])
      {
        assert |ParseAll(lines)| == |lines| == |os|;
        assert ParseAll(lines)[i] == Parse(lines[i]) && MeantAll(os)[i] == Meant(os[i]) && lines[i] in lines;
        MeantIsSpaced(os[i], lines[i]);
        PrintHasNoNewline(os[i]);
      }
      FramesCut(os);
      forall i | 0 <= i < |os| ensures Clean(os[i]) {
        assert ParseAll(lines)[i] == Parse(lines[i]) && MeantAll(os)[i] == Meant(os[i]);
        LineUnderstood(os[i]);
      }
    }
  }

  /** Clean orders arrive in any chunks as what they were meant, in order, with nothing left over. */
  lemma OrdersArrive(os: seq<Order>, chunks: seq<string>)
    requires forall o :: o in os ==> Clean(o)
    requires Joined(chunks) == Joined(FrameList(os))
    ensures ParseAll(Received(chunks).lines) == MeantAll(os) && Received(chunks).rest == ""
  {
    hide *;
    ChunksDoNotMatter(chunks);
    QueueUnderstood(os);
    UnderstoodMeans(os);
  }

  lemma UnderstoodMeans(os: seq<Order>)
    ensures Understood(os) <==> ParseAll(Lines(Joined(FrameList(os))).lines) == MeantAll(os)
                                && Lines(Joined(FrameList(os))).rest == ""
  {
  }

  /** While they are under way, or when sending failed, the commands taken are the first of those sent. */
  lemma OrdersArriveInOrder(os: seq<Order>, chunks: seq<string>)
    requires forall o :: o in os ==> Clean(o)
    requires Joined(chunks) <= Joined(FrameList(os))
    ensures ParseAll(Received(chunks).lines) <= MeantAll(os)
  {
    hide Parse, Lines, Clean, Joined, FrameList, MeantAll, Received;
    var arrived, all := Joined(chunks), Joined(FrameList(os));
    ChunksDoNotMatter(chunks);
    LinesSplit(arrived, all[|arrived|..]);
    assert arrived + all[|arrived|..] == all;
    QueueUnderstood(os);
    UnderstoodMeans(os);
  }
}
