/**
 * `ChatServer`: the directory of rooms and the per-connection receive loop.
 * Every handler is specified by a function from the old directory to an
 * `Outcome` (new directory, the sends it made, whether the connection stays
 * open); the lemmas below say what those outcomes mean.
 */
module Server {
  import opened Wrappers
  import opened Lists
  import opened Rsa
  import opened KeyExchange
  import opened Protocol
  import opened Room

  /** What one `recv` followed by `json.loads` yields. */
  datatype Inbound =
    | Frame(frame: Message)  // a JSON object carrying every field its handler reads
    | Falsy                  // JSON that is empty or false: `{}`, `[]`, `""`, `0`, `null`
    | Malformed              // not JSON, not an object, or a field the handler reads is missing
    | Closed                 // `recv` raised because the connection closed

  /** One room as the directory sees it: its key pair and its member lists. */
  datatype RoomView = RoomView(keys: KeyPair, members: RoomState)

  /** The result of handling one frame, or a run of them. */
  datatype Outcome = Outcome(order: seq<string>, dir: map<string, RoomView>, sent: seq<Attempt>, open: bool)

  /** `order` lists the rooms in creation order (the dict's key order), once each. */
  ghost predicate WellFormed(order: seq<string>, dir: map<string, RoomView>) {
    && Distinct(order)
    && (forall n :: n in order <==> n in dir)
    && (forall n :: n in dir ==> Consistent(dir[n].members))
  }

  const DuplicateText: string := "[ERROR] Username already exists in the room. Please choose a different username."
  const ConnectedText: string := "[INFO] Connected to the chat room."

  /** The code-409 reply to a duplicate username. */
  function Rejection(): Message {
    SystemMessage("red", DuplicateText, Conflict, None, None, None, None)
  }

  /** The code-200 reply to a successful join, carrying both room keys sealed for the joiner. */
  function Welcome(publicField: string, privateField: string): Message {
    SystemMessage("green", ConnectedText, Ok, None, None, Some(publicField), Some(privateField))
  }

  /** CHAT_MESSAGE is relayed as USER_MESSAGE with the ciphertext untouched. */
  function ChatRelay(username: string, text: string): Message {
    UserMessage("blue", username, text)
  }

  /** MEDIA_MESSAGE is relayed without its room field; the filename, `null` included, is copied. */
  function MediaRelay(username: string, text: string, filename: FileName): Message {
    MediaMessage(username, None, text, filename)
  }

  /** `remove_client_from_rooms` on the directory: one departure per room. */
  function Sweep(dir: map<string, RoomView>, ws: Socket): (r: map<string, RoomView>)
    requires forall n :: n in dir ==> Consistent(dir[n].members)
    ensures r.Keys == dir.Keys
    ensures forall n :: n in r ==> r[n].keys == dir[n].keys && Consistent(r[n].members)
  {
    map n | n in dir :: RoomView(dir[n].keys, Depart(dir[n].members, ws))
  }

  lemma SweepLogSnoc(order: seq<string>, x: string, dir: map<string, RoomView>, ws: Socket, failing: set<Socket>)
    requires forall n :: n in order + [x] ==> n in dir && Consistent(dir[n].members)
    ensures SweepLog(order + [x], dir, ws, failing)
            == SweepLog(order, dir, ws, failing) + DepartureLog(dir[x].members, ws, x, failing)
  {
    assert (order + [x])[..|order|] == order;
  }

  /** The names of the rooms without sockets. */
  function Vacant(dir: map<string, RoomView>): (r: set<string>)
    ensures forall n :: n in r <==> n in dir && dir[n].members.clients == []
  {
    set n | n in dir && dir[n].members.clients == []
  }

  /** Deleting a room keeps the directory well formed. */
  lemma WellFormedRemove(order: seq<string>, dir: map<string, RoomView>, n: string)
    requires WellFormed(order, dir) && n in dir
    ensures WellFormed(RemoveFirst(order, n), dir - {n})
  {
    RemoveFirstDistinct(order, n);
    RemoveFirstMembers(order, n);
  }

  lemma MapMinusNothing<K, V>(a: map<K, V>)
    ensures a - {} == a
  {
  }

  lemma MapMinusMore<K, V>(a: map<K, V>, gone: set<K>, k: K)
    ensures a - gone - {k} == a - (gone + {k})
  {
  }

  lemma MapMinusOne<K, V>(a: map<K, V>, b: map<K, V>, k: K)
    requires a.Keys == b.Keys - {k}
    requires forall m :: m in a ==> a[m] == b[m]
    ensures a == b - {k}
  {
  }

  /** The map lemmas the handlers use to state a directory update key by key. */
  lemma MapUpdate<K, V>(a: map<K, V>, b: map<K, V>, k: K, v: V)
    requires a.Keys == b.Keys && k in a && a[k] == v
    requires forall m :: m in a && m != k ==> a[m] == b[m]
    ensures a == b[k := v]
  {
  }

  /** The directory part-way through a sweep: the rooms in `done` have been visited. */
  function SweepPrefix(dir: map<string, RoomView>, ws: Socket, done: seq<string>): (r: map<string, RoomView>)
    requires forall n :: n in dir ==> Consistent(dir[n].members)
    ensures r.Keys == dir.Keys
  {
    map n | n in dir :: if n in done then RoomView(dir[n].keys, Depart(dir[n].members, ws)) else dir[n]
  }

  lemma SweepPrefixStep(dir: map<string, RoomView>, ws: Socket, done: seq<string>, x: string)
    requires forall n :: n in dir ==> Consistent(dir[n].members)
    requires x in dir
    ensures SweepPrefix(dir, ws, done + [x])
            == SweepPrefix(dir, ws, done)[x := RoomView(dir[x].keys, Depart(dir[x].members, ws))]
  {
    assert forall n :: n in done + [x] <==> n in done || n == x;
  }

  /** What one turn of the sweep adds, and that the directory stays well formed part-way through. */
  lemma SweepStep(order: seq<string>, dir: map<string, RoomView>, ws: Socket, i: nat, failing: set<Socket>)
    requires WellFormed(order, dir) && i < |order|
    ensures order[i] !in order[..i] && order[i] in dir
    ensures forall n :: n in order[..i + 1] ==> n in dir
    ensures SweepLog(order[..i + 1], dir, ws, failing)
            == SweepLog(order[..i], dir, ws, failing) + DepartureLog(dir[order[i]].members, ws, order[i], failing)
    ensures SweepPrefix(dir, ws, order[..i + 1])
            == SweepPrefix(dir, ws, order[..i])[order[i] := RoomView(dir[order[i]].keys, Depart(dir[order[i]].members, ws))]
    ensures WellFormed(order, SweepPrefix(dir, ws, order[..i + 1]))
  {
    DistinctPrefix(order, i);
    SliceSnoc(order, i);
    SweepLogSnoc(order[..i], order[i], dir, ws, failing);
    SweepPrefixStep(dir, ws, order[..i], order[i]);
  }

  lemma SweepPrefixAll(dir: map<string, RoomView>, ws: Socket, done: seq<string>)
    requires forall n :: n in dir ==> Consistent(dir[n].members)
    requires forall n :: n in dir ==> n in done
    ensures SweepPrefix(dir, ws, done) == Sweep(dir, ws)
  {
  }

  /** The goodbye broadcasts of a sweep, room by room in `order`. */
  function SweepLog(order: seq<string>, dir: map<string, RoomView>, ws: Socket, failing: set<Socket>): seq<Attempt>
    requires forall n :: n in order ==> n in dir && Consistent(dir[n].members)
  {
    if order == [] then []
    else
      var last := order[|order| - 1];
      SweepLog(order[..|order| - 1], dir, ws, failing) + DepartureLog(dir[last].members, ws, last, failing)
  }

  /** The room list, the set of rooms and every room's keys are as they were. */
  predicate Keeps(order: seq<string>, dir: map<string, RoomView>, o: Outcome) {
    && o.order == order
    && o.dir.Keys == dir.Keys
    && forall n :: n in dir ==> o.dir[n].keys == dir[n].keys
  }

  /** The `except` path: sweep the socket out of every room and end the session. */
  function Drop(order: seq<string>, dir: map<string, RoomView>, ws: Socket, failing: set<Socket>,
                sent: seq<Attempt>): (o: Outcome)
    requires WellFormed(order, dir)
    ensures WellFormed(o.order, o.dir) && !o.open
    ensures Keeps(order, dir, o)
  {
    Outcome(order, Sweep(dir, ws), sent + SweepLog(order, dir, ws, failing), false)
  }

  /** Send a reply to the sender: a send that raises takes the `except` path. */
  function Respond(order: seq<string>, dir: map<string, RoomView>, ws: Socket, reply: Message,
                 failing: set<Socket>, sent: seq<Attempt>): (o: Outcome)
    requires WellFormed(order, dir)
    ensures WellFormed(o.order, o.dir) && Keeps(order, dir, o)
    ensures o.open <==> ws !in failing
  {
    if ws in failing then Drop(order, dir, ws, failing, sent + [Attempt(ws, reply, false)])
    else Outcome(order, dir, sent + [Attempt(ws, reply, true)], true)
  }

  /** The directory after JOIN_ROOM's first step: a missing room is created with fresh keys; an existing one is left alone. */
  function Opened(order: seq<string>, dir: map<string, RoomView>, room: string, newKeys: KeyPair)
    : (r: (seq<string>, map<string, RoomView>))
    requires WellFormed(order, dir)
    ensures WellFormed(r.0, r.1) && room in r.1
  {
    if room in dir then (order, dir)
    else
      AppendDistinct(order, room);
      (order + [room], dir[room := RoomView(newKeys, RoomState([], []))])
  }

  /** JOIN_ROOM: open the room, then reject a taken username or let the joiner enter. */
  function JoinStep(order: seq<string>, dir: map<string, RoomView>, ws: Socket, username: string, room: string,
                    publicKey: Option<string>, newKeys: KeyPair, sc: Scheme, failing: set<Socket>): (o: Outcome)
    requires WellFormed(order, dir)
    ensures WellFormed(o.order, o.dir)
    ensures Keeps(Opened(order, dir, room, newKeys).0, Opened(order, dir, room, newKeys).1, o)
  {
    var (order1, dir1) := Opened(order, dir, room, newKeys);
    if username in dir1[room].members.users then Respond(order1, dir1, ws, Rejection(), failing, [])
    else Enter(order1, dir1, ws, username, room, publicKey, sc, failing)
  }

  /** `add_client` with its join notice, then the welcome. */
  function Enter(order: seq<string>, dir: map<string, RoomView>, ws: Socket, username: string, room: string,
                 publicKey: Option<string>, sc: Scheme, failing: set<Socket>): (o: Outcome)
    requires WellFormed(order, dir) && room in dir && username !in dir[room].members.users
    ensures WellFormed(o.order, o.dir) && Keeps(order, dir, o)
  {
    AdmitConsistent(dir[room].members, ws, username);
    var admitted := Admit(dir[room].members, ws, username);
    var dir2 := dir[room := RoomView(dir[room].keys, admitted)];
    Then(Outcome(order, dir2, Fanout(admitted.clients, ws, JoinedNotice(username), failing), true),
         Greet(order, dir2, ws, room, publicKey, sc, failing))
  }

  /**
   * Load the joiner's public key, seal both room keys for it and send the
   * welcome; a missing or unreadable key or a failed sealing takes the
   * `except` path.
   */
  function Greet(order: seq<string>, dir: map<string, RoomView>, ws: Socket, room: string, publicKey: Option<string>,
                 sc: Scheme, failing: set<Socket>): (o: Outcome)
    requires WellFormed(order, dir) && room in dir
    ensures WellFormed(o.order, o.dir) && Keeps(order, dir, o)
  {
    match if publicKey.Some? then sc.loadPublic(publicKey.value) else None
    case None => Drop(order, dir, ws, failing, [])
    case Some(peer) =>
      var publicField := SealText(sc, sc.savePublic(dir[room].keys.pub), peer);
      var privateField := SealText(sc, sc.savePrivate(dir[room].keys.priv), peer);
      if publicField.Failure? || privateField.Failure? then Drop(order, dir, ws, failing, [])
      else Respond(order, dir, ws, Welcome(publicField.value, privateField.value), failing, [])
  }

  /** CHAT_MESSAGE and MEDIA_MESSAGE once the frame is built: broadcast it in the named room, which must exist. */
  function RelayStep(order: seq<string>, dir: map<string, RoomView>, ws: Socket, room: string, frame: Message,
                     failing: set<Socket>): (o: Outcome)
    requires WellFormed(order, dir)
    ensures WellFormed(o.order, o.dir)
  {
    if room in dir then Outcome(order, dir, Fanout(dir[room].members.clients, ws, frame, failing), true)
    else Drop(order, dir, ws, failing, [])
  }

  /** One turn of `handle_client`. */
  function Step(order: seq<string>, dir: map<string, RoomView>, ws: Socket, ev: Inbound, newKeys: KeyPair,
                sc: Scheme, failing: set<Socket>): (o: Outcome)
    requires WellFormed(order, dir)
    ensures WellFormed(o.order, o.dir)
  {
    match ev
    case Frame(JoinRoom(username, room, publicKey)) =>
      JoinStep(order, dir, ws, username, room, publicKey, newKeys, sc, failing)
    case Frame(ChatMessage(username, room, text)) =>
      RelayStep(order, dir, ws, room, ChatRelay(username, text), failing)
    case Frame(MediaMessage(username, room, text, filename)) =>
      if room.None? || filename.NoFileName? then Drop(order, dir, ws, failing, [])
      else RelayStep(order, dir, ws, room.value, MediaRelay(username, text, filename), failing)
    case Frame(LeaveRoom(_, _)) =>
      // `remove_client_from_rooms` is called without `await`: the coroutine never runs
      Outcome(order, dir, [], true)
    case Frame(_) =>
      // SYSTEM_MESSAGE and USER_MESSAGE match no branch
      Outcome(order, dir, [], true)
    case _ => Drop(order, dir, ws, failing, [])
  }

  /** Sequencing: the later outcome's state, both sends. */
  function Then(first: Outcome, next: Outcome): Outcome {
    Outcome(next.order, next.dir, first.sent + next.sent, next.open)
  }

  /**
   * `handle_client` over a finite stream of inbound events: one `Step` per
   * event until one closes the connection; later events are never read.
   * `keygen(i)` is the key pair `rsa.newkeys(1024)` would draw at event `i`.
   */
  function Run(start: Outcome, ws: Socket, events: seq<Inbound>, keygen: nat -> KeyPair, sc: Scheme,
               failing: set<Socket>): (o: Outcome)
    requires WellFormed(start.order, start.dir)
    ensures WellFormed(o.order, o.dir)
    decreases |events|
  {
    if events == [] then start
    else
      var before := Run(start, ws, events[..|events| - 1], keygen, sc, failing);
      if !before.open then before
      else Then(before, Step(before.order, before.dir, ws, events[|events| - 1], keygen(|events| - 1), sc, failing))
  }

  // Properties of the handlers

  /** A sweep takes one binding of the socket out of every room and leaves every other socket alone. */
  lemma SweepEvicts(dir: map<string, RoomView>, ws: Socket, n: string)
    requires forall m :: m in dir ==> Consistent(dir[m].members)
    requires n in dir
    ensures multiset(Sweep(dir, ws)[n].members.clients) == multiset(dir[n].members.clients) - multiset{ws}
    ensures multiset(dir[n].members.clients)[ws] <= 1 ==> ws !in Sweep(dir, ws)[n].members.clients
  {
    DepartCount(dir[n].members, ws);
  }

  /**
   * JOIN_ROOM creates a missing room with the new keys before looking at the
   * username, so the room exists afterwards whatever the outcome; no other
   * room is created or removed and no room's keys change.
   */
  lemma JoinCreatesRoom(order: seq<string>, dir: map<string, RoomView>, ws: Socket, username: string, room: string,
                        publicKey: Option<string>, newKeys: KeyPair, sc: Scheme, failing: set<Socket>)
    requires WellFormed(order, dir)
    ensures var o := JoinStep(order, dir, ws, username, room, publicKey, newKeys, sc, failing);
            && o.dir.Keys == dir.Keys + {room}
            && (room in dir ==> o.order == order && o.dir[room].keys == dir[room].keys)
            && (room !in dir ==> o.order == order + [room] && o.dir[room].keys == newKeys)
            && forall n :: n in dir ==> o.dir[n].keys == dir[n].keys
  {
    var o := JoinStep(order, dir, ws, username, room, publicKey, newKeys, sc, failing);
    var r := Opened(order, dir, room, newKeys);
    assert Keeps(r.0, r.1, o);
    OpenedRoom(order, dir, room, newKeys);
  }

  /** Opening a room adds it, with the new keys, only when it is missing. */
  lemma OpenedRoom(order: seq<string>, dir: map<string, RoomView>, room: string, newKeys: KeyPair)
    requires WellFormed(order, dir)
    ensures var r := Opened(order, dir, room, newKeys);
            && r.1.Keys == dir.Keys + {room}
            && (room in dir ==> r.0 == order && r.1[room].keys == dir[room].keys)
            && (room !in dir ==> r.0 == order + [room] && r.1[room].keys == newKeys)
            && forall n :: n in dir ==> r.1[n].keys == dir[n].keys
  {
  }

  /**
   * A username already in the room gets the 409 reply and nothing else;
   * membership is unchanged unless that reply cannot be delivered.
   */
  lemma DuplicateJoinRejected(order: seq<string>, dir: map<string, RoomView>, ws: Socket, username: string,
                              room: string, publicKey: Option<string>, newKeys: KeyPair, sc: Scheme, failing: set<Socket>)
    requires WellFormed(order, dir)
    requires room in dir && username in dir[room].members.users
    requires ws !in failing
    ensures JoinStep(order, dir, ws, username, room, publicKey, newKeys, sc, failing)
            == Outcome(order, dir, [Attempt(ws, Rejection(), true)], true)
  {
  }

  /**
   * With a readable key whose modulus leaves room for padding, the welcome
   * is delivered and carries both room keys sealed so that the joiner's
   * private key opens them to exactly the room's key pair.
   */
  lemma GreetWelcomes(order: seq<string>, dir: map<string, RoomView>, ws: Socket, room: string, sc: Scheme,
                      failing: set<Socket>, peer: PublicKey, own: PrivateKey)
    requires WellFormed(order, dir) && room in dir
    requires sc.Valid() && Matches(peer, own) && ByteSize(peer.n) > PaddingOverhead
    requires ws !in failing
    ensures var o := Greet(order, dir, ws, room, Some(sc.savePublic(peer)), sc, failing);
            && o.open && o.dir == dir && |o.sent| == 1
            && o.sent[0].to == ws && o.sent[0].delivered
            && var reply := o.sent[0].frame;
               && reply.SystemMessage? && reply.code == Ok
               && reply.roomPublic.Some? && reply.roomPrivate.Some?
               && OpenPublic(sc, reply.roomPublic.value, own) == Some(dir[room].keys.pub)
               && OpenPrivate(sc, reply.roomPrivate.value, own) == Some(dir[room].keys.priv)
  {
    assert sc.loadPublic(sc.savePublic(peer)) == Some(peer);
    KeyTransport(sc, dir[room].keys, peer, own);
  }

  /**
   * A new username joins: its pair is appended, the other members are told
   * with code 200, and then the joiner gets the welcome of `GreetWelcomes`.
   */
  lemma JoinAdmits(order: seq<string>, dir: map<string, RoomView>, ws: Socket, username: string, room: string,
                   newKeys: KeyPair, sc: Scheme, failing: set<Socket>, peer: PublicKey, own: PrivateKey)
    requires WellFormed(order, dir)
    requires room !in dir || username !in dir[room].members.users
    requires sc.Valid() && Matches(peer, own) && ByteSize(peer.n) > PaddingOverhead
    requires ws !in failing
    ensures var o := JoinStep(order, dir, ws, username, room, Some(sc.savePublic(peer)), newKeys, sc, failing);
            var (_, dir1) := Opened(order, dir, room, newKeys);
            var admitted := Admit(dir1[room].members, ws, username);
            && o.open
            && o.dir == dir1[room := RoomView(dir1[room].keys, admitted)]
            && |o.sent| >= 1
            && o.sent[..|o.sent| - 1] == Fanout(admitted.clients, ws, JoinedNotice(username), failing)
            && o.sent[|o.sent| - 1] == Greet(o.order, o.dir, ws, room, Some(sc.savePublic(peer)), sc, failing).sent[0]
  {
    var (order1, dir1) := Opened(order, dir, room, newKeys);
    var admitted := Admit(dir1[room].members, ws, username);
    AdmitConsistent(dir1[room].members, ws, username);
    var dir2 := dir1[room := RoomView(dir1[room].keys, admitted)];
    GreetWelcomes(order1, dir2, ws, room, sc, failing, peer, own);
    var notices := Fanout(admitted.clients, ws, JoinedNotice(username), failing);
    var g := Greet(order1, dir2, ws, room, Some(sc.savePublic(peer)), sc, failing);
    assert JoinStep(order, dir, ws, username, room, Some(sc.savePublic(peer)), newKeys, sc, failing)
           == Outcome(order1, dir2, notices + g.sent, true);
    assert (notices + g.sent)[..|notices|] == notices;
  }

  /** LEAVE_ROOM changes nothing and sends nothing: the cleanup coroutine is never awaited. */
  lemma LeaveIsNoOp(order: seq<string>, dir: map<string, RoomView>, ws: Socket, username: string, room: string,
                    newKeys: KeyPair, sc: Scheme, failing: set<Socket>)
    requires WellFormed(order, dir)
    ensures Step(order, dir, ws, Frame(LeaveRoom(username, room)), newKeys, sc, failing) == Outcome(order, dir, [], true)
  {
  }

  /**
   * CHAT_MESSAGE to an existing room reaches every other member as a
   * USER_MESSAGE with the same text; the sender need not be a member, and
   * the directory does not change.
   */
  lemma ChatRelayed(order: seq<string>, dir: map<string, RoomView>, ws: Socket, username: string, room: string,
                    text: string, newKeys: KeyPair, sc: Scheme, failing: set<Socket>, s: Socket)
    requires WellFormed(order, dir) && room in dir
    ensures var o := Step(order, dir, ws, Frame(ChatMessage(username, room, text)), newKeys, sc, failing);
            && o.open && o.order == order && o.dir == dir
            && (forall a :: a in o.sent ==> a.frame == UserMessage("blue", username, text) && a.to != ws)
            && (Attempt(s, UserMessage("blue", username, text), true) in o.sent
                <==> s in dir[room].members.clients && s != ws && s !in failing)
  {
    var o := Step(order, dir, ws, Frame(ChatMessage(username, room, text)), newKeys, sc, failing);
    var members := dir[room].members.clients;
    FanoutDelivered(members, ws, ChatRelay(username, text), failing, s);
    FanoutAddresses(members, ws, ChatRelay(username, text), failing);
    forall a | a in o.sent ensures a.frame == UserMessage("blue", username, text) && a.to != ws {
      var i :| 0 <= i < |o.sent| && o.sent[i] == a;
    }
  }

  /**
   * MEDIA_MESSAGE to an existing room reaches every other member with the
   * same payload and filename (`null` included) and without the room field;
   * the directory does not change. A frame without a filename raises
   * KeyError before anything is sent.
   */
  lemma MediaRelayed(order: seq<string>, dir: map<string, RoomView>, ws: Socket, username: string, room: string,
                     text: string, filename: FileName, newKeys: KeyPair, sc: Scheme, failing: set<Socket>, s: Socket)
    requires WellFormed(order, dir) && room in dir
    ensures var o := Step(order, dir, ws, Frame(MediaMessage(username, Some(room), text, filename)), newKeys, sc, failing);
            && (filename.NoFileName? ==> o == Drop(order, dir, ws, failing, []))
            && (!filename.NoFileName? ==>
                  && o.open && o.order == order && o.dir == dir
                  && (forall a :: a in o.sent ==> a.frame == MediaMessage(username, None, text, filename) && a.to != ws)
                  && (Attempt(s, MediaMessage(username, None, text, filename), true) in o.sent
                      <==> s in dir[room].members.clients && s != ws && s !in failing))
  {
    if !filename.NoFileName? {
      var o := Step(order, dir, ws, Frame(MediaMessage(username, Some(room), text, filename)), newKeys, sc, failing);
      var members := dir[room].members.clients;
      var frame := MediaRelay(username, text, filename);
      FanoutDelivered(members, ws, frame, failing, s);
      FanoutAddresses(members, ws, frame, failing);
      forall a | a in o.sent ensures a.frame == frame && a.to != ws {
        var i :| 0 <= i < |o.sent| && o.sent[i] == a;
      }
    }
  }

  /**
   * A chat or media frame for a room that does not exist raises KeyError:
   * the session ends with a full sweep and nothing is relayed. (JOIN_ROOM
   * creates a missing room, and LEAVE_ROOM does nothing.)
   */
  lemma UnknownRoomDrops(order: seq<string>, dir: map<string, RoomView>, ws: Socket, username: string,
                         room: string, text: string, filename: FileName, newKeys: KeyPair, sc: Scheme,
                         failing: set<Socket>)
    requires WellFormed(order, dir) && room !in dir
    ensures Step(order, dir, ws, Frame(ChatMessage(username, room, text)), newKeys, sc, failing)
            == Outcome(order, Sweep(dir, ws), SweepLog(order, dir, ws, failing), false)
    ensures Step(order, dir, ws, Frame(MediaMessage(username, Some(room), text, filename)), newKeys, sc, failing)
            == Outcome(order, Sweep(dir, ws), SweepLog(order, dir, ws, failing), false)
  {
  }

  /**
   * A JOIN_ROOM without a public key: a taken username still gets the 409
   * reply, since the key is never read; a fresh one is admitted and
   * announced, and only then does the missing key end the session, leaving
   * the room in the directory.
   */
  lemma JoinWithoutKey(order: seq<string>, dir: map<string, RoomView>, ws: Socket, username: string, room: string,
                       newKeys: KeyPair, sc: Scheme, failing: set<Socket>)
    requires WellFormed(order, dir)
    ensures var o := JoinStep(order, dir, ws, username, room, None, newKeys, sc, failing);
            && room in o.dir
            && (room in dir && username in dir[room].members.users ==>
                  o == Respond(order, dir, ws, Rejection(), failing, []))
            && (room !in dir || username !in dir[room].members.users ==>
                  && !o.open
                  && var members := if room in dir then dir[room].members.clients else [];
                     Fanout(members + [ws], ws, JoinedNotice(username), failing) <= o.sent)
  {
    var o := JoinStep(order, dir, ws, username, room, None, newKeys, sc, failing);
    var (order1, dir1) := Opened(order, dir, room, newKeys);
    OpenedRoom(order, dir, room, newKeys);
    assert room in o.dir by {
      assert Keeps(order1, dir1, o);
    }
    if room !in dir || username !in dir[room].members.users {
      var admitted := Admit(dir1[room].members, ws, username);
      AdmitConsistent(dir1[room].members, ws, username);
      var dir2 := dir1[room := RoomView(dir1[room].keys, admitted)];
      var notices := Fanout(admitted.clients, ws, JoinedNotice(username), failing);
      var g := Greet(order1, dir2, ws, room, None, sc, failing);
      assert !g.open;
      assert o == Then(Outcome(order1, dir2, notices, true), g);
      assert notices <= o.sent;
    }
  }

  /** A closed, falsy or unreadable frame sweeps the socket out of every room and ends the session. */
  lemma BrokenFrameDrops(order: seq<string>, dir: map<string, RoomView>, ws: Socket, ev: Inbound, newKeys: KeyPair,
                         sc: Scheme, failing: set<Socket>)
    requires WellFormed(order, dir) && !ev.Frame?
    ensures var o := Step(order, dir, ws, ev, newKeys, sc, failing);
            && !o.open && o.order == order && o.dir.Keys == dir.Keys
            && forall n :: n in dir && multiset(dir[n].members.clients)[ws] <= 1 ==> ws !in o.dir[n].members.clients
  {
    forall n | n in dir && multiset(dir[n].members.clients)[ws] <= 1
      ensures ws !in Sweep(dir, ws)[n].members.clients
    {
      SweepEvicts(dir, ws, n);
    }
  }

  lemma RunSnoc(start: Outcome, ws: Socket, events: seq<Inbound>, k: nat, keygen: nat -> KeyPair, sc: Scheme,
                failing: set<Socket>)
    requires WellFormed(start.order, start.dir) && k < |events|
    ensures var before := Run(start, ws, events[..k], keygen, sc, failing);
            Run(start, ws, events[..k + 1], keygen, sc, failing)
            == if !before.open then before
               else Then(before, Step(before.order, before.dir, ws, events[k], keygen(k), sc, failing))
  {
    assert events[..k + 1][..k] == events[..k];
  }

  /** Once a session has closed, later events change nothing. */
  lemma {:induction false} RunClosed(start: Outcome, ws: Socket, events: seq<Inbound>, k: nat,
                                     keygen: nat -> KeyPair, sc: Scheme, failing: set<Socket>)
    requires WellFormed(start.order, start.dir)
    requires k <= |events| && !Run(start, ws, events[..k], keygen, sc, failing).open
    ensures Run(start, ws, events, keygen, sc, failing) == Run(start, ws, events[..k], keygen, sc, failing)
    decreases |events|
  {
    if k < |events| {
      var init := events[..|events| - 1];
      assert init[..k] == events[..k];
      RunClosed(start, ws, init, k, keygen, sc, failing);
    } else {
      assert events[..k] == events;
    }
  }

  /** One room object as the directory sees it. */
  function Summary(r: ChatRoom): RoomView
    reads r
  {
    RoomView(r.keys, r.State())
  }

  class ChatServer {
    /** The keys of `chat_rooms` in insertion order (the order `values()` visits). */
    var names: seq<string>
    var rooms: map<string, ChatRoom>

    ghost predicate Valid()
      reads this, rooms.Values
    {
      && (forall n :: n in rooms ==> rooms[n].name == n)
      && WellFormed(names, View())
    }

    /** The directory the spec functions talk about. */
    function View(): (d: map<string, RoomView>)
      reads this, rooms.Values
      ensures d.Keys == rooms.Keys
    {
      map n | n in rooms :: Summary(rooms[n])
    }

    constructor ()
      ensures Valid() && names == [] && rooms == map[]
    {
      names := [];
      rooms := map[];
    }

    /** `is_username_unique`: taken only when the room exists and already lists the name. */
    function IsUsernameUnique(room: string, username: string): (unique: bool)
      reads this, rooms.Values
      ensures !unique <==> room in View() && username in View()[room].members.users
    {
      if room in rooms then username !in rooms[room].users else true
    }

    /** `remove_client_from_rooms`: `remove_client` on every room in key order. */
    method RemoveClientFromRooms(ws: Socket, net: Transport)
      requires Valid()
      modifies rooms.Values, net
      ensures Valid() && names == old(names) && rooms == old(rooms)
      ensures net.failing == old(net.failing)
      ensures View() == Sweep(old(View()), ws)
      ensures net.log == old(net.log) + SweepLog(names, old(View()), ws, net.failing)
    {
      ghost var before := View();
      for i := 0 to |names|
        invariant Valid()
        invariant net.failing == old(net.failing)
        invariant View() == SweepPrefix(before, ws, names[..i])
        invariant net.log == old(net.log) + SweepLog(names[..i], before, ws, net.failing)
      {
        Visit(i, ws, net, before, old(net.log));
      }
      SliceAll(names);
      SweepPrefixAll(before, ws, names);
    }

    /** One turn of the sweep: the `i`-th room removes the socket. */
    method Visit(i: nat, ws: Socket, net: Transport, ghost before: map<string, RoomView>, ghost log0: seq<Attempt>)
      requires Valid() && i < |names| && WellFormed(names, before)
      requires View() == SweepPrefix(before, ws, names[..i])
      requires net.log == log0 + SweepLog(names[..i], before, ws, net.failing)
      modifies rooms[names[i]], net
      ensures Valid()
      ensures net.failing == old(net.failing)
      ensures View() == SweepPrefix(before, ws, names[..i + 1])
      ensures net.log == log0 + SweepLog(names[..i + 1], before, ws, net.failing)
    {
      var n := names[i];
      var r := rooms[n];
      SweepStep(names, before, ws, i, net.failing);
      assert r.Valid() && r.State() == before[n].members;
      RemoveFromRoom(n, ws, net);
      AppendAssoc(log0, SweepLog(names[..i], before, ws, net.failing), DepartureLog(before[n].members, ws, n, net.failing));
    }

    /** A reply to the sender on its own: the directory does not change. */
    method SendTo(ws: Socket, reply: Message, net: Transport) returns (ok: bool)
      modifies net
      ensures View() == old(View())
      ensures ok <==> ws !in net.failing
      ensures net.failing == old(net.failing)
      ensures net.log == old(net.log) + [Attempt(ws, reply, ok)]
    {
      ok := net.Send(ws, reply);
    }

    /** `broadcast_message` on the room named `room`: the directory does not change. */
    method BroadcastIn(room: string, frame: Message, ws: Socket, net: Transport)
      requires room in rooms
      modifies net
      ensures View() == old(View())
      ensures net.failing == old(net.failing)
      ensures net.log == old(net.log) + Fanout(rooms[room].clients, ws, frame, net.failing)
    {
      rooms[room].Broadcast(frame, ws, net);
    }

    /** Store a new, empty room under a name the directory does not hold yet. */
    method CreateRoom(room: string, newKeys: KeyPair)
      requires room !in rooms && forall n :: n in rooms ==> rooms[n].name == n
      modifies this
      ensures names == old(names) + [room]
      ensures room in rooms && fresh(rooms[room]) && rooms == old(rooms)[room := rooms[room]]
      ensures forall n :: n in rooms ==> rooms[n].name == n
      ensures View() == old(View())[room := RoomView(newKeys, RoomState([], []))]
    {
      var r := new ChatRoom(room, newKeys);
      names, rooms := names + [room], rooms[room := r];
    }

    /** `add_client` on the room named `room`: the directory changes at `room` only. */
    method AddToRoom(room: string, ws: Socket, username: string, net: Transport)
      requires Valid() && room in rooms && username !in rooms[room].users
      modifies rooms[room], net
      ensures View() == old(View())[room := RoomView(rooms[room].keys, Admit(old(rooms[room].State()), ws, username))]
      ensures net.failing == old(net.failing)
      ensures net.log == old(net.log) + Fanout(rooms[room].clients, ws, JoinedNotice(username), net.failing)
    {
      var r := rooms[room];
      assert forall m :: m in rooms && m != room ==> rooms[m] != r;
      assert r.Valid();
      r.AddClient(ws, username, net);
    }

    /** `remove_client` on the room named `n`: the directory changes at `n` only. */
    method RemoveFromRoom(n: string, ws: Socket, net: Transport)
      requires Valid() && n in rooms
      modifies rooms[n], net
      ensures View() == old(View())[n := RoomView(rooms[n].keys, Depart(old(rooms[n].State()), ws))]
      ensures net.failing == old(net.failing)
      ensures net.log == old(net.log) + DepartureLog(old(rooms[n].State()), ws, n, net.failing)
    {
      var r := rooms[n];
      assert forall m :: m in rooms && m != n ==> rooms[m] != r;
      assert r.Valid();
      r.RemoveClient(ws, net);
    }

    /** The rooms whose `is_empty()` holds, in key order. */
    function EmptyRooms(ns: seq<string>): (r: seq<string>)
      reads this, rooms.Values
      requires forall n :: n in ns ==> n in rooms
      ensures forall n :: n in r <==> n in ns && rooms[n].clients == []
      ensures Distinct(ns) ==> Distinct(r)
    {
      if ns == [] then []
      else
        var last := ns[|ns| - 1];
        var init := ns[..|ns| - 1];
        assert forall n :: n in ns <==> n in init || n == last;
        assert Distinct(ns) ==> Distinct(init) && last !in init;
        var r := EmptyRooms(init);
        if rooms[last].IsEmpty() then r + [last] else r
    }

    /** `remove_empty_rooms`: delete exactly the rooms without sockets; the rest keep their order. */
    method RemoveEmptyRooms()
      requires Valid()
      modifies this
      ensures Valid()
      ensures View() == old(View()) - Vacant(old(View()))
      ensures names == Without(old(names), Vacant(old(View())))
      ensures forall n :: n in rooms ==> rooms[n] == old(rooms[n])
    {
      var empty := EmptyRooms(names);
      assert (set n | n in empty) == Vacant(View());
      DeleteRooms(empty);
    }

    /** The deletion loop of `remove_empty_rooms`, over the names it collected. */
    method DeleteRooms(empty: seq<string>)
      requires Valid() && Distinct(empty)
      requires forall n :: n in empty ==> n in rooms
      modifies this
      ensures Valid()
      ensures View() == old(View()) - (set n | n in empty)
      ensures names == Without(old(names), set n | n in empty)
      ensures forall n :: n in rooms ==> rooms[n] == old(rooms[n])
    {
      ghost var dir0 := View();
      ghost var gone: set<string> := {};
      WithoutNothing(names);
      MapMinusNothing(dir0);
      for i := 0 to |empty|
        invariant forall n :: n in gone <==> n in empty[..i]
        invariant Valid()
        invariant View() == dir0 - gone
        invariant names == Without(old(names), gone)
        invariant forall n :: n in rooms ==> rooms[n] == old(rooms[n])
      {
        var n := empty[i];
        assert n !in empty[..i];
        DeleteVacant(n, old(names), dir0, gone);
        gone := gone + {n};
        SliceSnoc(empty, i);
      }
      SliceAll(empty);
      assert gone == set n | n in empty;
    }

    /** One more vacant room `n` deleted, on top of the ones in `gone`. */
    method DeleteVacant(n: string, ghost names0: seq<string>, ghost dir0: map<string, RoomView>, ghost gone: set<string>)
      requires Valid() && n in rooms && n !in gone && Distinct(names0) && n in names0
      requires View() == dir0 - gone && names == Without(names0, gone)
      modifies this
      ensures Valid()
      ensures rooms == old(rooms) - {n}
      ensures View() == dir0 - (gone + {n})
      ensures names == Without(names0, gone + {n})
    {
      RemoveFirstWithout(names0, gone, n);
      MapMinusMore(dir0, gone, n);
      DeleteRoom(n);
    }

    /** Delete one room from the directory, and its name from the key order. */
    method DeleteRoom(n: string)
      requires Valid() && n in rooms
      modifies this
      ensures Valid()
      ensures rooms == old(rooms) - {n}
      ensures names == RemoveFirst(old(names), n)
      ensures View() == old(View()) - {n}
    {
      ghost var before := View();
      rooms := rooms - {n};
      names := RemoveFirst(names, n);
      assert forall m :: m in View() ==> View()[m] == before[m];
      MapMinusOne(View(), before, n);
      WellFormedRemove(old(names), before, n);
    }

    /** The server now holds the outcome `o`, having sent `o.sent` after `log0`. */
    ghost predicate Reaches(o: Outcome, net: Transport, log0: seq<Attempt>, open: bool)
      reads this, rooms.Values, net
    {
      names == o.order && View() == o.dir && net.log == log0 + o.sent && open == o.open
    }

    /** The `except` path: `remove_client_from_rooms`, then leave the loop. */
    method Abort(ws: Socket, net: Transport) returns (open: bool)
      requires Valid()
      modifies rooms.Values, net
      ensures Valid() && rooms == old(rooms) && net.failing == old(net.failing)
      ensures Reaches(Drop(old(names), old(View()), ws, net.failing, []), net, old(net.log), open)
    {
      ghost var before := View();
      RemoveClientFromRooms(ws, net);
      EmptyPrefix(SweepLog(names, before, ws, net.failing));
      open := false;
    }

    /** The `except` path after `sent` already went out on top of `log0`. */
    method AbortAfter(ws: Socket, net: Transport, ghost log0: seq<Attempt>, ghost sent: seq<Attempt>) returns (open: bool)
      requires Valid() && net.log == log0 + sent
      modifies rooms.Values, net
      ensures Valid() && rooms == old(rooms) && net.failing == old(net.failing)
      ensures Reaches(Drop(old(names), old(View()), ws, net.failing, sent), net, log0, open)
    {
      ghost var before := View();
      RemoveClientFromRooms(ws, net);
      AppendAssoc(log0, sent, SweepLog(names, before, ws, net.failing));
      open := false;
    }

    /** `broadcast_message` on a named room, or the `except` path when the room does not exist. */
    method Relay(ws: Socket, room: string, frame: Message, net: Transport) returns (open: bool)
      requires Valid()
      modifies rooms.Values, net
      ensures Valid() && rooms == old(rooms) && net.failing == old(net.failing)
      ensures Reaches(RelayStep(old(names), old(View()), ws, room, frame, net.failing), net, old(net.log), open)
    {
      if room in rooms {
        BroadcastIn(room, frame, ws, net);
        open := true;
      } else {
        open := Abort(ws, net);
      }
    }

    /** A reply to the sender, then the `except` path if it raised. */
    method Reply(ws: Socket, reply: Message, net: Transport) returns (open: bool)
      requires Valid()
      modifies rooms.Values, net
      ensures Valid() && rooms == old(rooms) && net.failing == old(net.failing)
      ensures Reaches(Respond(old(names), old(View()), ws, reply, net.failing, []), net, old(net.log), open)
    {
      open := SendTo(ws, reply, net);
      if !open {
        EmptyPrefix([Attempt(ws, reply, false)]);
        open := AbortAfter(ws, net, old(net.log), [Attempt(ws, reply, false)]);
      } else {
        EmptyPrefix([Attempt(ws, reply, true)]);
      }
    }

    /** Create the named room when the directory lacks it; otherwise keep the existing room object. */
    method OpenRoom(room: string, newKeys: KeyPair)
      requires Valid()
      modifies this
      ensures Valid() && room in rooms
      ensures (names, View()) == Opened(old(names), old(View()), room, newKeys)
      ensures forall n :: n in old(rooms) ==> n in rooms && rooms[n] == old(rooms[n])
      ensures forall n :: n in rooms ==> n in old(rooms) || fresh(rooms[n])
    {
      if room !in rooms {
        AppendDistinct(names, room);
        CreateRoom(room, newKeys);
      }
    }

    /** The unique-username branch: `add_client`, then the welcome. */
    method EnterRoom(ws: Socket, username: string, room: string, publicKey: Option<string>, sc: Scheme, net: Transport)
      returns (open: bool)
      requires Valid() && room in rooms && username !in rooms[room].users
      modifies rooms.Values, net
      ensures Valid() && rooms == old(rooms) && net.failing == old(net.failing)
      ensures Reaches(Enter(old(names), old(View()), ws, username, room, publicKey, sc, net.failing),
                      net, old(net.log), open)
    {
      AddToRoom(room, ws, username, net);
      ghost var admitted := Admit(old(View())[room].members, ws, username);
      ghost var notices := Fanout(admitted.clients, ws, JoinedNotice(username), net.failing);
      AdmitConsistent(old(View())[room].members, ws, username);
      ghost var mid := View();
      open := GreetJoiner(ws, room, publicKey, sc, net);
      AppendAssoc(old(net.log), notices, Greet(names, mid, ws, room, publicKey, sc, net.failing).sent);
    }

    /** Load the joiner's key, seal the room keys for it and send the welcome. */
    method GreetJoiner(ws: Socket, room: string, publicKey: Option<string>, sc: Scheme, net: Transport) returns (open: bool)
      requires Valid() && room in rooms
      modifies rooms.Values, net
      ensures Valid() && rooms == old(rooms) && net.failing == old(net.failing)
      ensures Reaches(Greet(old(names), old(View()), ws, room, publicKey, sc, net.failing), net, old(net.log), open)
    {
      var keys := rooms[room].keys;
      var peer := if publicKey.Some? then sc.loadPublic(publicKey.value) else None;
      if peer.None? {
        open := Abort(ws, net);
        return;
      }
      var publicField := SealText(sc, sc.savePublic(keys.pub), peer.value);
      var privateField := SealText(sc, sc.savePrivate(keys.priv), peer.value);
      if publicField.Failure? || privateField.Failure? {
        open := Abort(ws, net);
      } else {
        open := Reply(ws, Welcome(publicField.value, privateField.value), net);
      }
    }

    /** The JOIN_ROOM branch of `handle_client`. */
    method HandleJoin(ws: Socket, username: string, room: string, publicKey: Option<string>, newKeys: KeyPair,
                      sc: Scheme, net: Transport) returns (open: bool)
      requires Valid()
      modifies this, rooms.Values, net
      ensures Valid() && net.failing == old(net.failing)
      ensures forall n :: n in rooms ==> rooms[n] in old(rooms.Values) || fresh(rooms[n])
      ensures Reaches(JoinStep(old(names), old(View()), ws, username, room, publicKey, newKeys, sc, net.failing),
                      net, old(net.log), open)
    {
      OpenRoom(room, newKeys);
      if !IsUsernameUnique(room, username) {
        open := Reply(ws, Rejection(), net);
      } else {
        open := EnterRoom(ws, username, room, publicKey, sc, net);
      }
    }

    /** One turn of `handle_client`'s loop. */
    method Handle(ws: Socket, ev: Inbound, newKeys: KeyPair, sc: Scheme, net: Transport) returns (open: bool)
      requires Valid()
      modifies this, rooms.Values, net
      ensures Valid() && net.failing == old(net.failing)
      ensures forall n :: n in rooms ==> rooms[n] in old(rooms.Values) || fresh(rooms[n])
      ensures Reaches(Step(old(names), old(View()), ws, ev, newKeys, sc, net.failing), net, old(net.log), open)
    {
      match ev
      case Frame(JoinRoom(username, room, publicKey)) =>
        open := HandleJoin(ws, username, room, publicKey, newKeys, sc, net);
      case Frame(ChatMessage(username, room, text)) =>
        open := Relay(ws, room, ChatRelay(username, text), net);
      case Frame(MediaMessage(username, room, text, filename)) =>
        if room.None? || filename.NoFileName? {
          open := Abort(ws, net);
        } else {
          open := Relay(ws, room.value, MediaRelay(username, text, filename), net);
        }
      case Frame(LeaveRoom(_, _)) =>
        open := true;
        AppendEmpty(net.log);
      case Frame(_) =>
        open := true;
        AppendEmpty(net.log);
      case _ =>
        open := Abort(ws, net);
    }

    /**
     * `handle_client`: handle events in order until one ends the session;
     * `handled` counts the events read.
     */
    method HandleClient(ws: Socket, events: seq<Inbound>, keygen: nat -> KeyPair, sc: Scheme, net: Transport)
      returns (handled: nat)
      requires Valid()
      modifies this, rooms.Values, net
      ensures Valid() && net.failing == old(net.failing)
      ensures var o := Run(Outcome(old(names), old(View()), [], true), ws, events, keygen, sc, net.failing);
              names == o.order && View() == o.dir && net.log == old(net.log) + o.sent
      ensures handled <= |events|
      ensures handled < |events| ==>
                !Run(Outcome(old(names), old(View()), [], true), ws, events[..handled], keygen, sc, net.failing).open
    {
      ghost var start := Outcome(names, View(), [], true);
      var open := true;
      handled := 0;
      AppendEmpty(net.log);
      while handled < |events| && open
        invariant handled <= |events|
        invariant Valid() && net.failing == old(net.failing)
        invariant forall n :: n in rooms ==> rooms[n] in old(rooms.Values) || fresh(rooms[n])
        invariant Reaches(Run(start, ws, events[..handled], keygen, sc, net.failing), net, old(net.log), open)
        decreases |events| - handled
      {
        ghost var prev := Run(start, ws, events[..handled], keygen, sc, net.failing);
        RunSnoc(start, ws, events, handled, keygen, sc, net.failing);
        open := Handle(ws, events[handled], keygen(handled), sc, net);
        AppendAssoc(old(net.log), prev.sent,
                    Step(prev.order, prev.dir, ws, events[handled], keygen(handled), sc, net.failing).sent);
        handled := handled + 1;
      }
      if handled < |events| {
        RunClosed(start, ws, events, handled, keygen, sc, net.failing);
      } else {
        SliceAll(events);
      }
    }
  }
}
