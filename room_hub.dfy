/** The real-time room hub: the socket handlers of the server over its three
    in-process tables (the chat history of each room, the presence table of
    each room, and the rooms each socket is in). Each handler runs as one
    sequential step and returns the events it emits, each paired with the set
    of sockets it is delivered to. Message ids and timestamps, which the
    server draws from the clock and the random source, are parameters. */
module RoomHub {
  import opened Text
  import opened Wrappers
  import opened JsValues

  type SocketId = string
  type RoomId = string

  /** A stored chat message. */
  datatype Entry = Entry(id: string, user: string, message: string, ts: nat)

  /** What a handler sends; the constructor names follow the wire event names
      (see EventName). */
  datatype Payload =
    | UserJoined(socket: SocketId)
    | ChatHistory(entries: seq<Entry>)
    | ChatMessage(entry: Entry)
    | PresenceUpdate(names: seq<string>)
    | ReceiveOffer(offer: JsValue)
    | ReceiveAnswer(answer: JsValue)
    | ReceiveCandidate(candidate: JsValue)
    | CodeChange(code: JsValue)
    | StdinChange(stdin: JsValue)
    | LanguageChange(languageId: JsValue)
    | TypingNotice(user: string, isTyping: bool)
    | ExecutionResult(result: ExecResult)

  /** An emitted event and the sockets that receive it. */
  datatype Event = Event(to: set<SocketId>, payload: Payload)

  /** The `executionResult` object: which of `stdout` and `stderr` it has. */
  datatype ExecResult = ExecResult(stdout: Option<JsValue>, stderr: Option<JsValue>)

  /** What the call to the execution service came to. */
  datatype FetchOutcome =
    | NotOk(status: nat, body: string)   // `resp.ok` false; `body` is `resp.text()`
    | OkJson(data: JsValue)              // `resp.ok`; `data` is `resp.json()`
    | Threw(message: string)             // the fetch, `text()` or `json()` rejected

  function EventName(p: Payload): string {
    match p
    case UserJoined(_) => "user_joined"
    case ChatHistory(_) => "chat_history"
    case ChatMessage(_) => "chat_message"
    case PresenceUpdate(_) => "presence_update"
    case ReceiveOffer(_) => "receive_offer"
    case ReceiveAnswer(_) => "receive-answer"
    case ReceiveCandidate(_) => "receive-candidate"
    case CodeChange(_) => "code_change"
    case StdinChange(_) => "stdin_change"
    case LanguageChange(_) => "language_change"
    case TypingNotice(_, _) => "typing"
    case ExecutionResult(_) => "executionResult"
  }

  // ---------------------------------------------------------------------
  // Chat history

  const HistoryCap: nat := 50

  /** `history.slice(-50)`: the most recent 50 entries, oldest first. */
  function KeepLast(h: seq<Entry>): (r: seq<Entry>)
    ensures |r| <= HistoryCap && |r| <= |h|
    ensures r == h[|h| - |r|..]
    ensures |h| <= HistoryCap ==> r == h
    ensures |h| >= HistoryCap ==> |r| == HistoryCap
  {
    if |h| <= HistoryCap then h else h[|h| - HistoryCap..]
  }

  // ---------------------------------------------------------------------
  // Presence: a `Map(socketId -> username)` as the pairs in insertion order

  type Presence = seq<(SocketId, string)>

  function Keys(p: Presence): (ks: seq<SocketId>)
    ensures |ks| == |p|
    ensures forall i :: 0 <= i < |p| ==> ks[i] == p[i].0
  {
    if p == [] then [] else [p[0].0] + Keys(p[1..])
  }

  /** `Array.from(map.values())`: the names in insertion order. */
  function Values(p: Presence): (vs: seq<string>)
    ensures |vs| == |p|
    ensures forall i :: 0 <= i < |p| ==> vs[i] == p[i].1
  {
    if p == [] then [] else [p[0].1] + Values(p[1..])
  }

  predicate UniqueKeys(p: Presence) {
    forall i, j :: 0 <= i < j < |p| ==> p[i].0 != p[j].0
  }

  /** `map.get(k)`. */
  function Lookup(p: Presence, k: SocketId): Option<string> {
    if p == [] then None else if p[0].0 == k then Some(p[0].1) else Lookup(p[1..], k)
  }

  /** `map.set(k, v)`: an existing key keeps its place and takes the new
      value; a new key goes last. */
  function PresenceSet(p: Presence, k: SocketId, v: string): (r: Presence)
    ensures Lookup(r, k) == Some(v)
    ensures forall k' :: k' != k ==> Lookup(r, k') == Lookup(p, k')
    ensures k in Keys(p) ==> Keys(r) == Keys(p)
    ensures k !in Keys(p) ==> r == p + [(k, v)]
  {
    if p == [] then [(k, v)]
    else if p[0].0 == k then [(k, v)] + p[1..]
    else
      var rest := PresenceSet(p[1..], k, v);
      assert Keys(p) == [p[0].0] + Keys(p[1..]);
      assert k !in Keys(p) ==> [p[0]] + rest == p + [(k, v)];
      [p[0]] + rest
  }

  /** `map.delete(k)`: the entry of k goes, the others keep their order. */
  function PresenceDelete(p: Presence, k: SocketId): (r: Presence)
    ensures k !in Keys(r)
    ensures forall k' :: k' != k ==> Lookup(r, k') == Lookup(p, k')
    ensures forall k' :: k' in Keys(r) <==> k' in Keys(p) && k' != k
    ensures k !in Keys(p) ==> r == p
  {
    if p == [] then []
    else
      var rest := PresenceDelete(p[1..], k);
      assert Keys(p) == [p[0].0] + Keys(p[1..]);
      if p[0].0 == k then rest else [p[0]] + rest
  }

  /** Deleting works entry by entry: what is left of a concatenation is
      what is left of each part, in order. */
  lemma {:induction false} PresenceDeleteConcat(a: Presence, b: Presence, k: SocketId)
    ensures PresenceDelete(a + b, k) == PresenceDelete(a, k) + PresenceDelete(b, k)
    decreases |a|
  {
    if a == [] {
      assert [] + b == b;
    } else {
      assert (a + b)[1..] == a[1..] + b;
      PresenceDeleteConcat(a[1..], b, k);
    }
  }

  /** A single entry is dropped exactly when it has the key. */
  lemma PresenceDeleteSingle(e: (SocketId, string), k: SocketId)
    ensures PresenceDelete([e], k) == if e.0 == k then [] else [e]
  {
    assert [e][1..] == [];
  }

  /** In a table with distinct keys, an entry's key occurs neither before
      nor after it. */
  lemma KeyOnlyAt(p: Presence, i: nat)
    requires UniqueKeys(p) && i < |p|
    ensures p[i].0 !in Keys(p[..i]) && p[i].0 !in Keys(p[i + 1..])
  {
    var a, b := p[..i], p[i + 1..];
    forall j | 0 <= j < |a| ensures Keys(a)[j] != p[i].0 {
      assert a[j] == p[j];
    }
    forall j | 0 <= j < |b| ensures Keys(b)[j] != p[i].0 {
      assert b[j] == p[i + 1 + j];
    }
  }

  /** In a table with distinct keys, deleting a present key removes its one
      entry and leaves the others where they were. */
  lemma PresenceDeleteAt(p: Presence, k: SocketId, i: nat)
    requires UniqueKeys(p) && i < |p| && p[i].0 == k
    ensures PresenceDelete(p, k) == p[..i] + p[i + 1..]
  {
    var a, b := p[..i], p[i + 1..];
    assert p == (a + [p[i]]) + b;
    KeyOnlyAt(p, i);
    PresenceDeleteConcat(a + [p[i]], b, k);
    PresenceDeleteConcat(a, [p[i]], k);
    PresenceDeleteSingle(p[i], k);
    assert PresenceDelete(a + [p[i]], k) == a;
    assert PresenceDelete(b, k) == b;
  }

  /** A tail of a table with distinct keys has distinct keys, none of them
      the head's. */
  lemma UniqueTail(p: Presence)
    requires UniqueKeys(p) && p != []
    ensures UniqueKeys(p[1..]) && p[0].0 !in Keys(p[1..])
  {
    forall i, j | 0 <= i < j < |p| - 1
      ensures p[1..][i].0 != p[1..][j].0
    {
      assert p[1..][i] == p[i + 1] && p[1..][j] == p[j + 1];
    }
    forall i | 0 <= i < |p| - 1
      ensures Keys(p[1..])[i] != p[0].0
    {
      assert Keys(p[1..])[i] == p[i + 1].0;
    }
  }

  /** `Map.set` keeps the keys distinct. */
  lemma PresenceSetUnique(p: Presence, k: SocketId, v: string)
    requires UniqueKeys(p)
    ensures UniqueKeys(PresenceSet(p, k, v))
  {
    var r := PresenceSet(p, k, v);
    if k in Keys(p) {
      forall i | 0 <= i < |r|
        ensures r[i].0 == p[i].0
      {
        assert Keys(r)[i] == Keys(p)[i];
      }
    } else {
      forall i | 0 <= i < |p|
        ensures p[i].0 != k
      {
        assert Keys(p)[i] == p[i].0;
      }
    }
  }

  /** `Map.delete` keeps the keys distinct, and removes exactly one entry
      when the key is present. */
  lemma {:induction false} PresenceDeleteUnique(p: Presence, k: SocketId)
    requires UniqueKeys(p)
    ensures UniqueKeys(PresenceDelete(p, k))
    ensures k in Keys(p) ==> |PresenceDelete(p, k)| == |p| - 1
  {
    if p != [] {
      UniqueTail(p);
      PresenceDeleteUnique(p[1..], k);
      var rest := PresenceDelete(p[1..], k);
      assert Keys(p) == [p[0].0] + Keys(p[1..]);
      if p[0].0 != k {
        var r := PresenceDelete(p, k);
        assert r == [p[0]] + rest;
        forall i, j | 0 <= i < j < |r|
          ensures r[i].0 != r[j].0
        {
          assert r[j] == rest[j - 1];
          assert Keys(rest)[j - 1] == rest[j - 1].0;
          if i > 0 {
            assert r[i] == rest[i - 1];
          }
        }
      }
    }
  }

  // ---------------------------------------------------------------------
  // Rooms

  predicate NoDuplicates(rs: seq<RoomId>) {
    forall i, j :: 0 <= i < j < |rs| ==> rs[i] != rs[j]
  }

  /** `socket.rooms.add(room)` on the insertion-ordered set of a socket's rooms. */
  function AddRoom(rs: seq<RoomId>, room: RoomId): (r: seq<RoomId>)
    ensures forall x :: x in r <==> x in rs || x == room
    ensures NoDuplicates(rs) ==> NoDuplicates(r)
  {
    if room in rs then rs else rs + [room]
  }

  /** The sockets that are in a room. */
  function MembersOf(rooms: map<SocketId, seq<RoomId>>, room: RoomId): set<SocketId> {
    set s | s in rooms && room in rooms[s]
  }

  function HistoryIn(history: map<RoomId, seq<Entry>>, room: RoomId): seq<Entry> {
    if room in history then history[room] else []
  }

  /** The presence tables after the disconnect loop has visited the rooms
      `rs` in order: each visited room other than the socket's own id room
      that has a table loses the socket's entry. */
  function WithoutSocket(pres: map<RoomId, Presence>, rs: seq<RoomId>, sid: SocketId)
    : (r: map<RoomId, Presence>)
    ensures r.Keys == pres.Keys
    decreases |rs|
  {
    if rs == [] then pres
    else
      var w := WithoutSocket(pres, rs[..|rs| - 1], sid);
      var room := rs[|rs| - 1];
      if room != sid && room in w then w[room := PresenceDelete(w[room], sid)] else w
  }

  function PresenceEvent(rooms: map<SocketId, seq<RoomId>>, room: RoomId, p: Presence): Event {
    Event(MembersOf(rooms, room), PresenceUpdate(Values(p)))
  }

  /** The broadcasts of the disconnect loop over the rooms `rs`, in order. */
  function CleanupEvents(pres: map<RoomId, Presence>, rooms: map<SocketId, seq<RoomId>>,
                         rs: seq<RoomId>, sid: SocketId): seq<Event>
    decreases |rs|
  {
    if rs == [] then []
    else
      var w := WithoutSocket(pres, rs[..|rs| - 1], sid);
      var room := rs[|rs| - 1];
      CleanupEvents(pres, rooms, rs[..|rs| - 1], sid)
      + (if room != sid && room in w then [PresenceEvent(rooms, room, PresenceDelete(w[room], sid))] else [])
  }

  /** The rooms, in join order, that the disconnect loop broadcasts to: all
      but the own id room, and only those with a presence table. */
  function AffectedRooms(pres: map<RoomId, Presence>, rs: seq<RoomId>, sid: SocketId)
    : (a: seq<RoomId>)
    ensures forall room :: room in a <==> room in rs && room != sid && room in pres
    decreases |rs|
  {
    if rs == [] then []
    else
      var last := rs[|rs| - 1];
      assert rs == rs[..|rs| - 1] + [last];
      AffectedRooms(pres, rs[..|rs| - 1], sid) + (if last != sid && last in pres then [last] else [])
  }

  // ---------------------------------------------------------------------
  // Code execution result shaping

  /** `source_code?.length || 0`, as text: a string's length counts UTF-16
      code units. */
  function CodeLengthText(sourceCode: JsValue): (r: string)
    ensures Nullish(sourceCode) ==> r == "0"
    ensures sourceCode.Str? ==>
      r == if sourceCode.s == "" then "0" else ToText(Num(Utf16Length(sourceCode.s)))
    ensures sourceCode.Arr? ==>
      r == if sourceCode.items == [] then "0" else ToText(Num(|sourceCode.items|))
  {
    var len := OptGet(sourceCode, "length");
    if Truthy(len) then ToText(len) else "0"
  }

  const StubHeader: string := "Execution service not configured."

  /** The object sent as `executionResult`, as a function of the configured
      service address ("" when unset) and of what the call came to. */
  function ExecutionResultOf(judgeUrl: string, outcome: FetchOutcome,
                             sourceCode: JsValue, languageId: JsValue, stdin: JsValue)
    : (r: ExecResult)
    ensures judgeUrl == "" ==>
      && r.stderr == None
      && r.stdout == Some(Str(StubHeader + "\nLanguage: " + ToText(languageId) + "\nInput: "
                              + ToText(stdin) + "\nCode length: " + CodeLengthText(sourceCode)))
    ensures judgeUrl != "" && outcome.NotOk? ==>
      r == ExecResult(None, Some(Str("Execution error " + NatStr(outcome.status) + ": " + outcome.body)))
    ensures judgeUrl != "" && outcome.Threw? ==>
      r == ExecResult(None, Some(Str("Execution failed: " + outcome.message)))
    ensures judgeUrl != "" && outcome.OkJson? && !Nullish(outcome.data) ==>
      var d := outcome.data;
      && r.stdout == Some(if Truthy(Get(d, "stdout").value) then Get(d, "stdout").value else Str(""))
      && r.stderr == Some(if Truthy(Get(d, "stderr").value) then Get(d, "stderr").value
                          else if Truthy(Get(d, "compile_output").value) then Get(d, "compile_output").value
                          else Str(""))
    ensures judgeUrl != "" && outcome.OkJson? && Nullish(outcome.data) ==>
      r.stdout == None && r.stderr.Some?
  {
    if judgeUrl == "" then
      ExecResult(Some(Str(StubHeader + "\nLanguage: " + ToText(languageId) + "\nInput: "
                          + ToText(stdin) + "\nCode length: " + CodeLengthText(sourceCode))), None)
    else
      match outcome
      case NotOk(status, body) =>
        ExecResult(None, Some(Str("Execution error " + NatStr(status) + ": " + body)))
      case Threw(message) =>
        ExecResult(None, Some(Str("Execution failed: " + message)))
      case OkJson(data) =>
        if Nullish(data) then
          // reading `data.stdout` throws; the catch turns it into a failure
          ExecResult(None, Some(Str("Execution failed: Cannot read properties of "
                                    + ToText(data) + " (reading 'stdout')")))
        else
          var out := Or(Get(data, "stdout").value, Str(""));
          var err := Or(Or(Get(data, "stderr").value, Get(data, "compile_output").value), Str(""));
          ExecResult(Some(out), Some(err))
  }

  /** `execute_code_event`: the result goes to the requesting socket alone. */
  function ExecuteCode(sender: SocketId, judgeUrl: string, outcome: FetchOutcome,
                       sourceCode: JsValue, languageId: JsValue, stdin: JsValue): (e: Event)
    ensures e.to == {sender}
    ensures e.payload.ExecutionResult?
    ensures e.payload.result == ExecutionResultOf(judgeUrl, outcome, sourceCode, languageId, stdin)
  {
    Event({sender}, ExecutionResult(ExecutionResultOf(judgeUrl, outcome, sourceCode, languageId, stdin)))
  }

  // ---------------------------------------------------------------------
  // Allowed origins

  const DevOrigins: seq<string> := ["http://localhost:5173", "http://127.0.0.1:5173"]

  /** The origin list from `ALLOWED_ORIGINS` ("" when unset): the comma
      pieces, trimmed, blank ones dropped; outside production an empty list
      becomes the two local development origins. */
  function AllowedOrigins(env: string, nodeEnv: string): (r: seq<string>)
    ensures forall i :: 0 <= i < |r| ==> r[i] != "" && IsTrimmed(r[i]) && ',' !in r[i]
    ensures r != [] || nodeEnv == "production"
    ensures nodeEnv == "production" ==> forall o :: o in r <==> o in TrimmedPieces(env, ',') && o != ""
    ensures nodeEnv != "production" && Items(env, ',') == [] ==> r == DevOrigins
    ensures nodeEnv == "production" || Items(env, ',') != [] ==> r == Items(env, ',')
  {
    var listed := Items(env, ',');
    if nodeEnv != "production" && |listed| == 0 then DevOriginsClean(); DevOrigins else listed
  }

  lemma DevOriginsClean()
    ensures forall i :: 0 <= i < |DevOrigins| ==> DevOrigins[i] != "" && IsTrimmed(DevOrigins[i]) && ',' !in DevOrigins[i]
  {
    var a := DevOrigins[0];
    var b := DevOrigins[1];
    assert a[0] == 'h' && a[|a| - 1] == '3';
    assert b[0] == 'h' && b[|b| - 1] == '3';
  }

  // ---------------------------------------------------------------------
  // The hub

  class Hub {
    /** `__roomChatHistory`: room id to its retained messages, oldest first. */
    var history: map<RoomId, seq<Entry>>
    /** `__roomPresence`: room id to its presence table. */
    var presence: map<RoomId, Presence>
    /** The connected sockets and, for each, `socket.rooms` in insertion
        order (its own id room first). */
    var rooms: map<SocketId, seq<RoomId>>

    ghost predicate Valid()
      reads this
    {
      && (forall r :: r in history ==> |history[r]| <= HistoryCap)
      && (forall r :: r in presence ==> UniqueKeys(presence[r]))
      && (forall s :: s in rooms ==> NoDuplicates(rooms[s]) && s in rooms[s])
    }

    /** The tables as the first connection creates them: both empty. */
    constructor ()
      ensures Valid()
      ensures history == map[] && presence == map[] && rooms == map[]
    {
      history, presence, rooms := map[], map[], map[];
    }

    function Members(room: RoomId): set<SocketId>
      reads this
    {
      MembersOf(rooms, room)
    }

    /** `socket.to(room).emit(...)`: every socket in the room but the sender. */
    function ToOthers(sender: SocketId, room: RoomId, p: Payload): (e: Event)
      reads this
      ensures e.payload == p
      ensures sender !in e.to
      ensures forall s :: s in e.to <==> s in rooms && room in rooms[s] && s != sender
    {
      Event(Members(room) - {sender}, p)
    }

    /** `io.to(room).emit(...)`: every socket in the room, the sender too. */
    function ToRoom(room: RoomId, p: Payload): (e: Event)
      reads this
      ensures e.payload == p
      ensures forall s :: s in e.to <==> s in rooms && room in rooms[s]
    {
      Event(Members(room), p)
    }

    /** A new connection: the socket is in its own id room only. */
    method Connect(sid: SocketId)
      requires Valid() && sid !in rooms
      modifies this
      ensures Valid()
      ensures rooms == old(rooms)[sid := [sid]]
      ensures history == old(history) && presence == old(presence)
    {
      rooms := rooms[sid := [sid]];
    }

    /** `join_room`: join, tell the others, send the history to the joiner
        alone, and create the room's presence table if it has none. */
    method JoinRoom(sid: SocketId, roomId: RoomId) returns (out: seq<Event>)
      requires Valid() && sid in rooms
      modifies this
      ensures Valid()
      ensures rooms == old(rooms)[sid := AddRoom(old(rooms)[sid], roomId)]
      ensures history == old(history)
      ensures roomId in old(presence) ==> presence == old(presence)
      ensures roomId !in old(presence) ==> presence == old(presence)[roomId := []]
      ensures out == [ToOthers(sid, roomId, UserJoined(sid)),
                      Event({sid}, ChatHistory(HistoryIn(old(history), roomId)))]
    {
      rooms := rooms[sid := AddRoom(rooms[sid], roomId)];
      var joined := ToOthers(sid, roomId, UserJoined(sid));
      var replay := Event({sid}, ChatHistory(HistoryIn(history, roomId)));
      if roomId !in presence {
        presence := presence[roomId := []];
      }
      out := [joined, replay];
    }

    /** `offer`, `answer` and `ice-candidate`: relayed to the others. */
    function Offer(sender: SocketId, roomId: RoomId, offer: JsValue): (e: Event)
      reads this
      ensures e.to == Members(roomId) - {sender}
      ensures EventName(e.payload) == "receive_offer" && e.payload.offer == offer
    {
      ToOthers(sender, roomId, ReceiveOffer(offer))
    }

    function Answer(sender: SocketId, roomId: RoomId, answer: JsValue): (e: Event)
      reads this
      ensures e.to == Members(roomId) - {sender}
      ensures EventName(e.payload) == "receive-answer" && e.payload.answer == answer
    {
      ToOthers(sender, roomId, ReceiveAnswer(answer))
    }

    function IceCandidate(sender: SocketId, roomId: RoomId, candidate: JsValue): (e: Event)
      reads this
      ensures e.to == Members(roomId) - {sender}
      ensures EventName(e.payload) == "receive-candidate" && e.payload.candidate == candidate
    {
      ToOthers(sender, roomId, ReceiveCandidate(candidate))
    }

    /** `code_change`, `stdin_change` and `language_change`: relayed to the others. */
    function CodeEdit(sender: SocketId, room: RoomId, code: JsValue): (e: Event)
      reads this
      ensures e.to == Members(room) - {sender}
      ensures EventName(e.payload) == "code_change" && e.payload.code == code
    {
      ToOthers(sender, room, CodeChange(code))
    }

    function StdinEdit(sender: SocketId, room: RoomId, stdin: JsValue): (e: Event)
      reads this
      ensures e.to == Members(room) - {sender}
      ensures EventName(e.payload) == "stdin_change" && e.payload.stdin == stdin
    {
      ToOthers(sender, room, StdinChange(stdin))
    }

    function LanguageEdit(sender: SocketId, room: RoomId, languageId: JsValue): (e: Event)
      reads this
      ensures e.to == Members(room) - {sender}
      ensures EventName(e.payload) == "language_change" && e.payload.languageId == languageId
    {
      ToOthers(sender, room, LanguageChange(languageId))
    }

    /** `typing`: dropped without a room or a user, else relayed to the
        others with the flag coerced to a boolean. */
    function Typing(sender: SocketId, room: RoomId, user: string, isTyping: JsValue): (out: seq<Event>)
      reads this
      ensures room == "" || user == "" ==> out == []
      ensures room != "" && user != "" ==>
        |out| == 1 && out[0].payload == TypingNotice(user, Truthy(isTyping)) && sender !in out[0].to
        && out[0].to == Members(room) - {sender}
    {
      if room == "" || user == "" then [] else [ToOthers(sender, room, TypingNotice(user, Truthy(isTyping)))]
    }

    /** `chat_send`: without a room or a message nothing happens; otherwise
        the entry (author "Anon" when none is given) is appended, the
        history cut to its last 50, and the entry sent to the whole room. */
    method ChatSend(room: RoomId, user: string, message: string, id: string, ts: nat)
      returns (out: seq<Event>)
      requires Valid()
      modifies this
      ensures Valid()
      ensures rooms == old(rooms) && presence == old(presence)
      ensures room == "" || message == "" ==> history == old(history) && out == []
      ensures room != "" && message != "" ==>
        var e := Entry(id, if user == "" then "Anon" else user, message, ts);
        && history == old(history)[room := KeepLast(HistoryIn(old(history), room) + [e])]
        && out == [ToRoom(room, ChatMessage(e))]
    {
      if room == "" || message == "" {
        return [];
      }
      var e := Entry(id, if user == "" then "Anon" else user, message, ts);
      var h := HistoryIn(history, room);
      h := h + [e];
      history := history[room := KeepLast(h)];
      out := [ToRoom(room, ChatMessage(e))];
    }

    /** `presence_identify`: without a room or a name nothing happens;
        otherwise the socket's name is set in the room's table (created if
        absent) and the whole room gets the names in insertion order. */
    method PresenceIdentify(sid: SocketId, roomId: RoomId, username: string)
      returns (out: seq<Event>)
      requires Valid()
      modifies this
      ensures Valid()
      ensures rooms == old(rooms) && history == old(history)
      ensures roomId == "" || username == "" ==> presence == old(presence) && out == []
      ensures roomId != "" && username != "" ==>
        var table := PresenceSet(if roomId in old(presence) then old(presence)[roomId] else [], sid, username);
        && presence == old(presence)[roomId := table]
        && out == [ToRoom(roomId, PresenceUpdate(Values(table)))]
    {
      if roomId == "" || username == "" {
        return [];
      }
      if roomId !in presence {
        presence := presence[roomId := []];
      }
      PresenceSetUnique(presence[roomId], sid, username);
      var table := PresenceSet(presence[roomId], sid, username);
      presence := presence[roomId := table];
      out := [ToRoom(roomId, PresenceUpdate(Values(table)))];
    }

    /** `disconnecting`: for each room of the socket but its own id room, in
        join order, the socket's presence entry is deleted and the room gets
        the remaining names. Afterwards the socket leaves all its rooms. */
    method Disconnecting(sid: SocketId) returns (out: seq<Event>)
      requires Valid() && sid in rooms
      modifies this
      ensures Valid()
      ensures history == old(history)
      ensures presence == WithoutSocket(old(presence), old(rooms)[sid], sid)
      ensures out == CleanupEvents(old(presence), old(rooms), old(rooms)[sid], sid)
      ensures rooms == old(rooms) - {sid}
    {
      var rs, start, members := rooms[sid], presence, rooms;
      var tables := start;
      out := [];
      var i := 0;
      while i < |rs|
        invariant 0 <= i <= |rs|
        invariant unchanged(this)
        invariant tables == WithoutSocket(start, rs[..i], sid)
        invariant out == CleanupEvents(start, members, rs[..i], sid)
      {
        var roomId := rs[i];
        DisconnectStep(start, members, rs, i, sid);
        if roomId != sid && roomId in tables {
          var table := PresenceDelete(tables[roomId], sid);
          tables := tables[roomId := table];
          out := out + [PresenceEvent(members, roomId, table)];
        }
        i := i + 1;
      }
      assert rs[..|rs|] == rs;
      WithoutSocketUnique(start, rs, sid);
      presence := tables;
      rooms := rooms - {sid};
    }
  }

  // ---------------------------------------------------------------------
  // Properties

  /** Cutting after every append keeps exactly what cutting once at the end
      keeps: the history is always the last 50 messages ever accepted. */
  lemma KeepLastAppend(h: seq<Entry>, e: Entry)
    ensures KeepLast(KeepLast(h) + [e]) == KeepLast(h + [e])
  {
    if |h| > HistoryCap {
      assert KeepLast(h) + [e] == h[|h| - HistoryCap..] + [e];
      assert (h[|h| - HistoryCap..] + [e])[1..] == (h + [e])[|h| + 1 - HistoryCap..];
    }
  }

  /** After an append the new entry is last and the history is not empty. */
  lemma KeepLastEndsWith(h: seq<Entry>, e: Entry)
    ensures var r := KeepLast(h + [e]); |r| >= 1 && r[|r| - 1] == e
  {
  }

  /** Setting the same name for the same socket twice is setting it once. */
  lemma {:induction false} PresenceSetIdempotent(p: Presence, k: SocketId, v: string)
    ensures PresenceSet(PresenceSet(p, k, v), k, v) == PresenceSet(p, k, v)
  {
    if p != [] && p[0].0 != k {
      PresenceSetIdempotent(p[1..], k, v);
      assert (PresenceSet(p, k, v))[1..] == PresenceSet(p[1..], k, v);
    }
  }

  /** Deleting twice is deleting once. */
  lemma {:induction false} PresenceDeleteIdempotent(p: Presence, k: SocketId)
    ensures PresenceDelete(PresenceDelete(p, k), k) == PresenceDelete(p, k)
  {
    if p != [] {
      PresenceDeleteIdempotent(p[1..], k);
      if p[0].0 != k {
        assert (PresenceDelete(p, k))[1..] == PresenceDelete(p[1..], k);
      }
    }
  }

  /** One more room of the disconnect loop: its table, when it has one and
      is not the own id room, loses the socket's entry and is broadcast. */
  lemma DisconnectStep(pres: map<RoomId, Presence>, rooms: map<SocketId, seq<RoomId>>,
                       rs: seq<RoomId>, i: nat, sid: SocketId)
    requires i < |rs|
    ensures var w, room := WithoutSocket(pres, rs[..i], sid), rs[i];
      if room != sid && room in w then
        && WithoutSocket(pres, rs[..i + 1], sid) == w[room := PresenceDelete(w[room], sid)]
        && CleanupEvents(pres, rooms, rs[..i + 1], sid) ==
             CleanupEvents(pres, rooms, rs[..i], sid) + [PresenceEvent(rooms, room, PresenceDelete(w[room], sid))]
      else
        && WithoutSocket(pres, rs[..i + 1], sid) == w
        && CleanupEvents(pres, rooms, rs[..i + 1], sid) == CleanupEvents(pres, rooms, rs[..i], sid)
  {
    assert rs[..i + 1][..i] == rs[..i];
  }

  /** The disconnect loop keeps every presence table's keys distinct. */
  lemma WithoutSocketUnique(pres: map<RoomId, Presence>, rs: seq<RoomId>, sid: SocketId)
    requires forall room :: room in pres ==> UniqueKeys(pres[room])
    ensures var r := WithoutSocket(pres, rs, sid);
      forall room :: room in r ==> UniqueKeys(r[room])
  {
    WithoutSocketFacts(pres, rs, sid);
    forall room | room in pres {
      PresenceDeleteUnique(pres[room], sid);
    }
  }

  /** What the disconnect loop does to the presence tables: each room the
      socket was in, other than its own id room, loses the socket's entry and
      nothing else; every other table is untouched. So the socket has no
      entry left there and every other socket's entry is what it was. */
  lemma {:induction false} WithoutSocketFacts(pres: map<RoomId, Presence>, rs: seq<RoomId>, sid: SocketId)
    ensures var r := WithoutSocket(pres, rs, sid);
      && (forall room :: room in pres ==>
            r[room] == if room in rs && room != sid then PresenceDelete(pres[room], sid) else pres[room])
      && (forall room :: room in pres && room in rs && room != sid ==> sid !in Keys(r[room]))
      && (forall room, k :: room in pres && k != sid ==> Lookup(r[room], k) == Lookup(pres[room], k))
    decreases |rs|
  {
    if rs != [] {
      var prefix, last := rs[..|rs| - 1], rs[|rs| - 1];
      assert rs == prefix + [last];
      WithoutSocketFacts(pres, prefix, sid);
      if last != sid && last in pres && last in prefix {
        PresenceDeleteIdempotent(pres[last], sid);
      }
    }
  }

  /** With the socket's rooms distinct, the disconnect broadcasts are one per
      affected room, in join order, each carrying the room's table without
      the socket's entry to every socket in that room. */
  lemma {:induction false} CleanupEventsPerRoom(pres: map<RoomId, Presence>, rooms: map<SocketId, seq<RoomId>>,
                                                rs: seq<RoomId>, sid: SocketId)
    requires NoDuplicates(rs)
    ensures var a, e := AffectedRooms(pres, rs, sid), CleanupEvents(pres, rooms, rs, sid);
      && |e| == |a|
      && forall i :: 0 <= i < |a| ==> e[i] == PresenceEvent(rooms, a[i], PresenceDelete(pres[a[i]], sid))
    decreases |rs|
  {
    if rs != [] {
      var prefix, last := rs[..|rs| - 1], rs[|rs| - 1];
      assert rs == prefix + [last];
      assert last !in prefix;
      CleanupEventsPerRoom(pres, rooms, prefix, sid);
      WithoutSocketFacts(pres, prefix, sid);
    }
  }

  /** No presence broadcast of a disconnect carries the leaving socket's
      entry. */
  lemma CleanupNeverNamesLeaver(pres: map<RoomId, Presence>, rooms: map<SocketId, seq<RoomId>>,
                                rs: seq<RoomId>, sid: SocketId, i: nat)
    requires NoDuplicates(rs)
    requires i < |CleanupEvents(pres, rooms, rs, sid)|
    ensures var a := AffectedRooms(pres, rs, sid);
      && i < |a| && a[i] in rs && a[i] != sid && a[i] in pres
      && CleanupEvents(pres, rooms, rs, sid)[i]
         == Event(MembersOf(rooms, a[i]), PresenceUpdate(Values(PresenceDelete(pres[a[i]], sid))))
      && sid !in Keys(PresenceDelete(pres[a[i]], sid))
  {
    CleanupEventsPerRoom(pres, rooms, rs, sid);
    var a := AffectedRooms(pres, rs, sid);
    assert a[i] in a;
  }

  /** Every room of the socket that has a presence table, other than its id
      room, gets a broadcast, addressed to all its members. */
  lemma CleanupReachesEveryRoom(pres: map<RoomId, Presence>, rooms: map<SocketId, seq<RoomId>>,
                                rs: seq<RoomId>, sid: SocketId, room: RoomId)
    requires NoDuplicates(rs)
    requires room in rs && room != sid && room in pres
    ensures exists i :: (0 <= i < |CleanupEvents(pres, rooms, rs, sid)|
      && CleanupEvents(pres, rooms, rs, sid)[i] == PresenceEvent(rooms, room, PresenceDelete(pres[room], sid)))
  {
    CleanupEventsPerRoom(pres, rooms, rs, sid);
    var a := AffectedRooms(pres, rs, sid);
    var i :| 0 <= i < |a| && a[i] == room;
    assert CleanupEvents(pres, rooms, rs, sid)[i] == PresenceEvent(rooms, room, PresenceDelete(pres[room], sid));
  }

  /** A list written out as `ALLOWED_ORIGINS` reads back as itself. */
  lemma AllowedOriginsRoundTrip(origins: seq<string>, nodeEnv: string)
    requires |origins| > 0
    requires forall i :: 0 <= i < |origins| ==> origins[i] != "" && IsTrimmed(origins[i]) && ',' !in origins[i]
    ensures AllowedOrigins(Join(origins, ","), nodeEnv) == origins
  {
    ItemsOfJoin(origins, ',');
    assert [','] == ",";
  }

  /** One more message sent to the room keeps the last fifty of one more
      of the messages. */
  lemma ReplayStep(hist: map<RoomId, seq<Entry>>, room: RoomId, sent: seq<Entry>, i: nat)
    requires i < |sent| && HistoryIn(hist, room) == KeepLast(sent[..i])
    ensures HistoryIn(hist[room := KeepLast(HistoryIn(hist, room) + [sent[i]])], room) == KeepLast(sent[..i + 1])
  {
    var v := KeepLast(HistoryIn(hist, room) + [sent[i]]);
    assert HistoryIn(hist[room := v], room) == v;
    KeepLastAppend(sent[..i], sent[i]);
    assert sent[..i + 1] == sent[..i] + [sent[i]];
  }

  /** Messages sent one after another to one room, on a fresh hub: the room
      keeps the last fifty, oldest first. */
  method ReplayChat(room: RoomId, sent: seq<Entry>) returns (kept: seq<Entry>)
    requires room != ""
    requires forall i :: 0 <= i < |sent| ==> sent[i].message != "" && sent[i].user != ""
    ensures kept == KeepLast(sent)
  {
    var hub := new Hub();
    var i := 0;
    while i < |sent|
      invariant 0 <= i <= |sent|
      invariant hub.Valid()
      invariant HistoryIn(hub.history, room) == KeepLast(sent[..i])
      modifies hub
    {
      var e := sent[i];
      assert e == Entry(e.id, if e.user == "" then "Anon" else e.user, e.message, e.ts);
      ghost var hist := hub.history;
      var events := hub.ChatSend(room, e.user, e.message, e.id, e.ts);
      ReplayStep(hist, room, sent, i);
      i := i + 1;
    }
    assert sent[..|sent|] == sent;
    kept := HistoryIn(hub.history, room);
  }
}
